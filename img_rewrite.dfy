/** The pass over the rendered HTML that turns every `<img>` tag back into
    Markdown image syntax (packages/mdx-to-md/src/mdx-to-md.ts:69-75):

      html.replace(/<img([^>]*)src="([^"]*)"([^>]*)>/g, (match, pre, src, post) => ...)

    A match of the pattern is described by four positions (`Span`), and
    `IsMatch` says when four positions spell a match, character by character.
    The search that the regular-expression engine performs (leftmost start,
    then backtracking of the greedy `([^>]*)` from its longest choice) is
    written out as recursive functions, and their contracts tie the match they
    return to `IsMatch`: no match starts further left, and among the matches
    at that start none has its `src="` further right. */
module ImgRewrite {
  import opened Text

  const ImgOpen: string := "<img"
  const SrcOpen: string := "src=\""
  const AltOpen: string := "alt=\""

  /** `<img`, `src="` and `alt="` at index `i`, character by character. */
  predicate ImgOpenAt(s: string, i: nat) {
    i + 4 <= |s| && s[i] == '<' && s[i + 1] == 'i' && s[i + 2] == 'm' && s[i + 3] == 'g'
  }

  predicate SrcOpenAt(s: string, i: nat) {
    i + 5 <= |s| && s[i] == 's' && s[i + 1] == 'r' && s[i + 2] == 'c' && s[i + 3] == '=' && s[i + 4] == '"'
  }

  predicate AltOpenAt(s: string, i: nat) {
    i + 5 <= |s| && s[i] == 'a' && s[i + 1] == 'l' && s[i + 2] == 't' && s[i + 3] == '=' && s[i + 4] == '"'
  }

  /** One match in a text: `<img` at `start`, `src="` at `srcAt`, the `"`
      closing the src value at `quote`, the `>` closing the tag at `close`. */
  datatype Span = Span(start: nat, srcAt: nat, quote: nat, close: nat)
  {
    /** The same match, `d` characters further right. */
    function Shift(d: nat): Span {
      Span(start + d, srcAt + d, quote + d, close + d)
    }
  }

  /** `m` spells `<img([^>]*)src="([^"]*)"([^>]*)>` in `s`. */
  ghost predicate IsMatch(s: string, m: Span) {
    && m.start + 4 <= m.srcAt
    && m.srcAt + 5 <= m.quote < m.close < |s|
    && ImgOpenAt(s, m.start)
    && Lacks(s, m.start + 4, m.srcAt, '>')
    && SrcOpenAt(s, m.srcAt)
    && Lacks(s, m.srcAt + 5, m.quote, '"')
    && s[m.quote] == '"'
    && Lacks(s, m.quote + 1, m.close, '>')
    && s[m.close] == '>'
  }

  /** `m` is the match the engine reports when it searches from index `p`:
      the leftmost start, and at that start the longest first group. */
  ghost predicate IsFirstMatchFrom(s: string, p: nat, m: Span) {
    && IsMatch(s, m)
    && p <= m.start
    && (forall m' :: IsMatch(s, m') && p <= m'.start ==> m.start <= m'.start)
    && (forall m' :: IsMatch(s, m') && m'.start == m.start ==> m'.srcAt <= m.srcAt)
  }

  /** The three capture groups of a match. */
  function Pre(s: string, m: Span): string
    requires IsMatch(s, m)
  {
    s[m.start + 4..m.srcAt]
  }

  function Src(s: string, m: Span): string
    requires IsMatch(s, m)
  {
    s[m.srcAt + 5..m.quote]
  }

  function Post(s: string, m: Span): string
    requires IsMatch(s, m)
  {
    s[m.quote + 1..m.close]
  }

  /** With `src="` at `a`, the greedy `([^"]*)"` ends at the first `"` after
      it and the greedy `([^>]*)>` at the first `>` after that quote. */
  function TailAt(s: string, a: nat): (r: Option<(nat, nat)>)
    ensures r.Some? ==>
      && a + 5 <= r.value.0 < r.value.1 < |s|
      && s[r.value.0] == '"' && s[r.value.1] == '>'
      && (forall j :: a + 5 <= j < r.value.0 ==> s[j] != '"')
      && (forall j :: r.value.0 < j < r.value.1 ==> s[j] != '>')
    ensures forall m :: IsMatch(s, m) && m.srcAt == a ==> r == Some((m.quote, m.close))
  {
    match IndexOf(s, '"', a + 5)
    case None => None
    case Some(q) =>
      match IndexOf(s, '>', q + 1)
      case None => None
      case Some(c) => Some((q, c))
  }

  /** Backtracking of `([^>]*)` at `start`: the candidates for `srcAt` are
      tried from `hi - 1` down to `start + 4`, and the first that completes
      the match wins. */
  function MatchDown(s: string, start: nat, hi: nat): (r: Option<Span>)
    requires ImgOpenAt(s, start) && start + 4 <= hi <= |s| + 1
    requires forall j :: start + 4 <= j < hi - 1 ==> s[j] != '>'
    decreases hi
    ensures r.Some? ==> IsMatch(s, r.value) && r.value.start == start && r.value.srcAt < hi
    ensures forall m :: IsMatch(s, m) && m.start == start && m.srcAt < hi ==>
      r.Some? && m.srcAt <= r.value.srcAt
  {
    if hi == start + 4 then None
    else if SrcOpenAt(s, hi - 1) && TailAt(s, hi - 1).Some? then
      Some(Span(start, hi - 1, TailAt(s, hi - 1).value.0, TailAt(s, hi - 1).value.1))
    else MatchDown(s, start, hi - 1)
  }

  /** The match starting at `start`, if any: `([^>]*)` first takes every
      character up to the first `>` (or the end of the text), then gives
      them back one by one. */
  function MatchAt(s: string, start: nat): (r: Option<Span>)
    ensures r.Some? ==> IsMatch(s, r.value) && r.value.start == start
    ensures forall m :: IsMatch(s, m) && m.start == start ==> r.Some? && m.srcAt <= r.value.srcAt
  {
    if !ImgOpenAt(s, start) then None
    else
      var k := match IndexOf(s, '>', start + 4) case Some(k) => k case None => |s|;
      MatchDown(s, start, k + 1)
  }

  /** The engine's search from `lastIndex` = `p`: the first start at or
      after `p` where a match exists. */
  function FindFrom(s: string, p: nat): (r: Option<Span>)
    decreases |s| - p
    ensures r.Some? ==> IsFirstMatchFrom(s, p, r.value)
    ensures r.None? ==> forall m :: IsMatch(s, m) ==> m.start < p
  {
    if p >= |s| then None
    else
      match MatchAt(s, p)
      case Some(m) => Some(m)
      case None => FindFrom(s, p + 1)
  }

  /** `alt="` at `i`, and the `"` closing its value at `j`. */
  ghost predicate IsAltAt(t: string, i: nat, j: nat) {
    && AltOpenAt(t, i)
    && i + 5 <= j < |t|
    && t[j] == '"'
    && Lacks(t, i + 5, j, '"')
  }

  /** `post.match(/alt="([^"]*)"/)`, searched from index `i`. */
  function AltFrom(t: string, i: nat): (r: Option<(nat, nat)>)
    decreases |t| - i
    ensures r.Some? ==> i <= r.value.0 && IsAltAt(t, r.value.0, r.value.1)
    ensures forall i', j' :: IsAltAt(t, i', j') && i <= i' ==> r.Some? && r.value.0 <= i'
  {
    if i >= |t| then None
    else if AltOpenAt(t, i) && IndexOf(t, '"', i + 5).Some? then
      Some((i, IndexOf(t, '"', i + 5).value))
    else AltFrom(t, i + 1)
  }

  /** `alt ? alt[1] : ""` of the callback: the value of the first `alt="…"`
      in `post`, or the empty string when there is none. */
  function AltText(post: string): (r: string)
    ensures (forall i: nat, j: nat :: !IsAltAt(post, i, j)) ==> r == ""
    ensures forall i: nat, j: nat :: IsAltAt(post, i, j) && (forall i': nat, j': nat :: IsAltAt(post, i', j') ==> i <= i') ==>
      r == post[i + 5..j]
    ensures '"' !in r
  {
    match AltFrom(post, 0)
    case Some((i, j)) => post[i + 5..j]
    case None => ""
  }

  /** `src.replace(/\\/g, "/")`. */
  function Slashed(src: string): (r: string)
    ensures |r| == |src|
    ensures forall i :: 0 <= i < |src| ==> r[i] == (if src[i] == '\\' then '/' else src[i])
    ensures '\\' !in r
  {
    if src == [] then []
    else [if src[0] == '\\' then '/' else src[0]] + Slashed(src[1..])
  }

  /** The callback's result, `![alt](src)` with no escaping. */
  function ImageMarkdown(alt: string, src: string): string {
    "![" + alt + "](" + Slashed(src) + ")"
  }

  /** The replace cuts the text into pieces: text the pattern does not touch,
      and matched tags, kept by their three capture groups. */
  datatype Piece = Verbatim(text: string) | Image(pre: string, src: string, post: string)

  function TagText(pre: string, src: string, post: string): string {
    ImgOpen + pre + SrcOpen + src + "\"" + post + ">"
  }

  /** What a piece was in the rendered HTML. */
  function Raw(piece: Piece): string {
    match piece
    case Verbatim(t) => t
    case Image(pre, src, post) => TagText(pre, src, post)
  }

  /** What a piece becomes in the processed HTML. */
  function Emit(piece: Piece): string {
    match piece
    case Verbatim(t) => t
    case Image(_, src, post) => ImageMarkdown(AltText(post), src)
  }

  /** The pieces of a text, in order. */
  datatype Pieces = End | Then(piece: Piece, rest: Pieces)

  function RawAll(ps: Pieces): string {
    match ps
    case End => ""
    case Then(piece, rest) => Raw(piece) + RawAll(rest)
  }

  function EmitAll(ps: Pieces): string {
    match ps
    case End => ""
    case Then(piece, rest) => Emit(piece) + EmitAll(rest)
  }

  /** The global replace: the text up to the first match is kept, the match
      becomes an image, and the search goes on right after the match's `>`.
      The engine resumes at `lastIndex` in the same string; as the pattern
      has no anchor and no lookbehind, that is a search of the rest of the
      text, which is how it is written here (`ImgRewriteProperties.FindInRest`
      shows the two searches agree). */
  function Scan(t: string): Pieces
    decreases |t|
  {
    match FindFrom(t, 0)
    case None => if t == [] then End else Then(Verbatim(t), End)
    case Some(m) => Cut(t, m, Scan(t[m.close + 1..]))
  }

  /** The pieces for the first match `m`: the text before it, if any, then
      the image, then `rest`. */
  function Cut(t: string, m: Span, rest: Pieces): Pieces
    requires IsMatch(t, m)
  {
    var image := Then(Image(Pre(t, m), Src(t, m), Post(t, m)), rest);
    if m.start == 0 then image else Then(Verbatim(t[..m.start]), image)
  }

  /** `processedHtml` computed from `html`. */
  function Rewrite(html: string): string {
    EmitAll(Scan(html))
  }

  /** A piece as the replace produces it: verbatim text is not empty and holds
      no match, an image's groups keep to their character classes. */
  ghost predicate WellFormed(piece: Piece) {
    match piece
    case Verbatim(t) => t != [] && forall m :: !IsMatch(t, m)
    case Image(pre, src, post) => '>' !in pre && '"' !in src && '>' !in post
  }

  ghost predicate AllWellFormed(ps: Pieces) {
    match ps
    case End => true
    case Then(piece, rest) => WellFormed(piece) && AllWellFormed(rest)
  }
}
