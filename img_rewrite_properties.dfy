/** What the `<img>` rewrite promises: the pieces it cuts the HTML into put the
    HTML back together, every piece is one the pattern allows, text without a
    match comes out unchanged, every match becomes exactly `![alt](src)`, and
    a rewrite of text followed by a tag is the text, the image, and the
    rewrite of what follows. */
module ImgRewriteProperties {
  import opened Text
  import opened ImgRewrite

  /** The engine's report is determined: two first matches from the same
      index are the same match. */
  lemma FirstMatchUnique(s: string, p: nat, m1: Span, m2: Span)
    requires IsFirstMatchFrom(s, p, m1) && IsFirstMatchFrom(s, p, m2)
    ensures m1 == m2
  {
    assert m1.start == m2.start;
    assert m1.srcAt == m2.srcAt;
    var t := TailAt(s, m1.srcAt);
    assert t == Some((m1.quote, m1.close)) && t == Some((m2.quote, m2.close));
  }

  /** A match is a match in any longer text that starts the same way. */
  lemma MatchExtends(y: string, z: string, m: Span)
    requires IsMatch(y, m)
    ensures IsMatch(y + z, m)
  {
    var s := y + z;
    assert s[m.quote] == y[m.quote] && s[m.close] == y[m.close];
    assert Lacks(s, m.start + 4, m.srcAt, '>') by {
      forall j | m.start + 4 <= j < m.srcAt ensures s[j] != '>' { assert s[j] == y[j]; }
    }
    assert Lacks(s, m.srcAt + 5, m.quote, '"') by {
      forall j | m.srcAt + 5 <= j < m.quote ensures s[j] != '"' { assert s[j] == y[j]; }
    }
    assert Lacks(s, m.quote + 1, m.close, '>') by {
      forall j | m.quote + 1 <= j < m.close ensures s[j] != '>' { assert s[j] == y[j]; }
    }
  }

  /** Matching looks only at the characters of the match: text in front
      moves a match without changing whether it is one. */
  lemma MatchShift(x: string, y: string, m: Span)
    ensures IsMatch(y, m) <==> IsMatch(x + y, m.Shift(|x|))
  {
    var s, d := x + y, |x|;
    LacksShift(x, y, m.start + 4, m.srcAt, '>');
    LacksShift(x, y, m.srcAt + 5, m.quote, '"');
    LacksShift(x, y, m.quote + 1, m.close, '>');
    if m.quote < |y| && m.close < |y| {
      assert s[d + m.quote] == y[m.quote] && s[d + m.close] == y[m.close];
    }
  }

  /** A match of `x + y` that starts inside `y` is a match of `y`, moved. */
  lemma MatchUnshift(x: string, y: string, n: Span) returns (m: Span)
    requires IsMatch(x + y, n) && |x| <= n.start
    ensures IsMatch(y, m) && m.Shift(|x|) == n
  {
    var d := |x|;
    m := Span(n.start - d, n.srcAt - d, n.quote - d, n.close - d);
    MatchShift(x, y, m);
  }

  /** The search reports the first match whenever there is one. */
  lemma FindIsFirst(s: string, p: nat, n: Span)
    requires IsFirstMatchFrom(s, p, n)
    ensures FindFrom(s, p) == Some(n)
  {
    var r := FindFrom(s, p);
    assert r.Some?;
    FirstMatchUnique(s, p, r.value, n);
  }

  /** Matching looks only at the characters of the match: a match in a
      suffix is a match in the whole text, moved, and back. */
  lemma MatchInSuffix(s: string, p: nat, m: Span)
    requires p <= |s|
    ensures IsMatch(s[p..], m) <==> IsMatch(s, m.Shift(p))
  {
    var y := s[p..];
    LacksInSuffix(s, p, m.start + 4, m.srcAt, '>');
    LacksInSuffix(s, p, m.srcAt + 5, m.quote, '"');
    LacksInSuffix(s, p, m.quote + 1, m.close, '>');
    if m.start <= m.quote <= m.close < |y| {
      assert y[m.start] == s[p + m.start] && y[m.quote] == s[p + m.quote] && y[m.close] == s[p + m.close];
    }
  }

  /** A match at or after `p` is a match of the suffix from `p`, moved. */
  lemma MatchOutOfSuffix(s: string, p: nat, n: Span) returns (m: Span)
    requires p <= |s| && IsMatch(s, n) && p <= n.start
    ensures IsMatch(s[p..], m) && m.Shift(p) == n
  {
    m := Span(n.start - p, n.srcAt - p, n.quote - p, n.close - p);
    MatchInSuffix(s, p, m);
  }

  /** The groups of a match, put back between the pattern's literals, are the
      matched text. */
  lemma TagTextOfMatch(s: string, m: Span)
    requires IsMatch(s, m)
    ensures TagText(Pre(s, m), Src(s, m), Post(s, m)) == s[m.start..m.close + 1]
  {
    LiteralsOfMatch(s, m);
    SliceIsTag(s, m.start, m.start + 4, m.srcAt, m.srcAt + 5, m.quote, m.quote + 1, m.close, m.close + 1);
  }

  /** A slice that has the pattern's literals at the given places is the
      tag of the groups between them. */
  lemma SliceIsTag(s: string, i0: nat, i1: nat, i2: nat, i3: nat, i4: nat, i5: nat, i6: nat, i7: nat)
    requires i0 <= i1 <= i2 <= i3 <= i4 <= i5 <= i6 <= i7 <= |s|
    requires s[i0..i1] == ImgOpen && s[i2..i3] == SrcOpen && s[i4..i5] == "\"" && s[i6..i7] == ">"
    ensures TagText(s[i1..i2], s[i3..i4], s[i5..i6]) == s[i0..i7]
  {
    SevenParts(s, i0, i1, i2, i3, i4, i5, i6, i7);
  }

  /** The pattern's literals, read off a match. */
  lemma LiteralsOfMatch(s: string, m: Span)
    requires IsMatch(s, m)
    ensures s[m.start..m.start + 4] == ImgOpen && s[m.srcAt..m.srcAt + 5] == SrcOpen
    ensures s[m.quote..m.quote + 1] == "\"" && s[m.close..m.close + 1] == ">"
  {
  }

  /** A search from `lastIndex` = `p` finds what a search of the text after
      `p` finds, moved by `p`. */
  lemma FindInRest(s: string, p: nat)
    requires p <= |s|
    ensures FindFrom(s[p..], 0).None? ==> FindFrom(s, p).None?
    ensures FindFrom(s[p..], 0).Some? ==> FindFrom(s, p) == Some(FindFrom(s[p..], 0).value.Shift(p))
  {
    var r := FindFrom(s[p..], 0);
    if r.Some? {
      RestFirstIsFirst(s, p, r.value);
      FindIsFirst(s, p, r.value.Shift(p));
    } else {
      RestNoneIsNone(s, p);
    }
  }

  /** The first match of the rest, moved, is the first match from `p`. */
  lemma RestFirstIsFirst(s: string, p: nat, m: Span)
    requires p <= |s| && IsFirstMatchFrom(s[p..], 0, m)
    ensures IsFirstMatchFrom(s, p, m.Shift(p))
  {
    var n := m.Shift(p);
    MatchInSuffix(s, p, m);
    forall n' | IsMatch(s, n') && p <= n'.start ensures n.start <= n'.start {
      var m' := MatchOutOfSuffix(s, p, n');
    }
    forall n' | IsMatch(s, n') && n'.start == n.start ensures n'.srcAt <= n.srcAt {
      var m' := MatchOutOfSuffix(s, p, n');
    }
  }

  /** No match in the rest means no match from `p`. */
  lemma RestNoneIsNone(s: string, p: nat)
    requires p <= |s| && FindFrom(s[p..], 0).None?
    ensures FindFrom(s, p).None?
  {
    var r := FindFrom(s, p);
    if r.Some? {
      var m := MatchOutOfSuffix(s, p, r.value);
    }
  }

  /** Nothing is lost or added between the pieces: they spell the input. */
  lemma {:induction false} ScanReassembles(t: string)
    ensures RawAll(Scan(t)) == t
    decreases |t|
  {
    if FindFrom(t, 0).Some? {
      ScanReassembles(t[FindFrom(t, 0).value.close + 1..]);
      ScanStepReassembles(t);
    }
  }

  /** One step of `ScanReassembles`: text before the match, the match, and
      the rest spell the text. */
  lemma ScanStepReassembles(t: string)
    requires FindFrom(t, 0).Some?
    requires var c := FindFrom(t, 0).value.close; RawAll(Scan(t[c + 1..])) == t[c + 1..]
    ensures RawAll(Scan(t)) == t
  {
    var m := FindFrom(t, 0).value;
    var rest := Scan(t[m.close + 1..]);
    assert Scan(t) == Cut(t, m, rest);
    RawCut(t, m, rest);
    TagTextOfMatch(t, m);
    ThreeParts(t, m.start, m.close + 1);
  }

  /** The pieces of one cut spell the text before the match, the tag, and
      what the rest spells. */
  lemma RawCut(t: string, m: Span, rest: Pieces)
    requires IsMatch(t, m)
    ensures RawAll(Cut(t, m, rest)) == t[..m.start] + TagText(Pre(t, m), Src(t, m), Post(t, m)) + RawAll(rest)
  {
    var tag := TagText(Pre(t, m), Src(t, m), Post(t, m));
    Associative(t[..m.start], tag, RawAll(rest));
    if m.start == 0 {
      assert t[..m.start] == [];
    }
  }

  /** The text before the first match holds no match of its own. */
  lemma NoMatchInPrefix(t: string, e: nat)
    requires e <= |t|
    requires forall m :: IsMatch(t, m) ==> e <= m.start
    ensures forall m :: !IsMatch(t[..e], m)
  {
    forall m | IsMatch(t[..e], m) ensures false {
      assert t[..e] + t[e..] == t;
      MatchExtends(t[..e], t[e..], m);
    }
  }

  /** Every piece is one the replace can produce: verbatim text that holds no
      match, and tags whose groups keep to `[^>]`, `[^"]` and `[^>]`. */
  lemma {:induction false} ScanPiecesWellFormed(t: string)
    ensures AllWellFormed(Scan(t))
    decreases |t|
  {
    if FindFrom(t, 0).None? {
      if t != [] {
        NoMatchInPrefix(t, |t|);
        assert t[..|t|] == t;
      }
    } else {
      ScanPiecesWellFormed(t[FindFrom(t, 0).value.close + 1..]);
      ScanStepWellFormed(t);
    }
  }

  /** One step of the scan keeps the pieces well formed. */
  lemma ScanStepWellFormed(t: string)
    requires FindFrom(t, 0).Some?
    requires AllWellFormed(Scan(t[FindFrom(t, 0).value.close + 1..]))
    ensures AllWellFormed(Scan(t))
  {
    var m := FindFrom(t, 0).value;
    if m.start != 0 {
      NoMatchInPrefix(t, m.start);
    }
  }

  /** Text in which the pattern has no match comes out unchanged. */
  lemma RewriteWithoutMatch(s: string)
    requires forall m :: !IsMatch(s, m)
    ensures Rewrite(s) == s
  {
    assert FindFrom(s, 0).None?;
    if s == [] {
      assert Scan(s) == End;
    } else {
      assert Scan(s) == Then(Verbatim(s), End);
      assert EmitAll(End) == "";
    }
  }

  /** In particular an `<img` with no `src="` after it, or text without
      `<img`, is left verbatim. */
  lemma RewriteNeedsImgAndSrc(s: string)
    requires (forall i :: !ImgOpenAt(s, i)) || (forall i :: !SrcOpenAt(s, i))
    ensures Rewrite(s) == s
  {
    RewriteWithoutMatch(s);
  }

  /** The groups of a match in a suffix are the groups of the moved match
      in the whole text. */
  lemma GroupsInSuffix(s: string, p: nat, m: Span)
    requires p <= |s| && IsMatch(s[p..], m)
    ensures var n := m.Shift(p);
      IsMatch(s, n) && Pre(s, n) == Pre(s[p..], m) && Src(s, n) == Src(s[p..], m) && Post(s, n) == Post(s[p..], m)
  {
    MatchInSuffix(s, p, m);
    SuffixSlice(s, p, m.start + 4, m.srcAt);
    SuffixSlice(s, p, m.srcAt + 5, m.quote);
    SuffixSlice(s, p, m.quote + 1, m.close);
  }

  /** Text behind keeps a match and its groups. */
  lemma GroupsExtend(y: string, z: string, m: Span)
    requires IsMatch(y, m)
    ensures var s := y + z;
      IsMatch(s, m) && Pre(s, m) == Pre(y, m) && Src(s, m) == Src(y, m) && Post(s, m) == Post(y, m)
  {
    MatchExtends(y, z, m);
    var s := y + z;
    assert s[m.start + 4..m.srcAt] == y[m.start + 4..m.srcAt];
    assert s[m.srcAt + 5..m.quote] == y[m.srcAt + 5..m.quote];
    assert s[m.quote + 1..m.close] == y[m.quote + 1..m.close];
  }

  /** `src="` does not occur in `u`. */
  ghost predicate NoSrcAttribute(u: string) {
    forall i :: !SrcOpenAt(u, i)
  }

  /** The match a tag spells on its own. */
  function TagSpan(pre: string, src: string, post: string): Span {
    Span(0, 4 + |pre|, 9 + |pre| + |src|, 10 + |pre| + |src| + |post|)
  }

  /** The tag's groups stand where `TagSpan` says. */
  lemma TagGroups(pre: string, src: string, post: string)
    ensures var t, n := TagText(pre, src, post), TagSpan(pre, src, post);
      && |t| == n.close + 1
      && t[..4] == ImgOpen && t[4..n.srcAt] == pre
      && t[n.srcAt..n.srcAt + 5] == SrcOpen && t[n.srcAt + 5..n.quote] == src
      && t[n.quote] == '"' && t[n.quote + 1..n.close] == post && t[n.close] == '>'
      && t[n.srcAt + 5..n.close] == src + "\"" + post
  {
  }

  /** A tag whose groups keep to their character classes is a match. */
  lemma TagMatches(pre: string, src: string, post: string)
    requires '>' !in pre && '"' !in src && '>' !in post
    ensures IsMatch(TagText(pre, src, post), TagSpan(pre, src, post))
  {
    var t, n := TagText(pre, src, post), TagSpan(pre, src, post);
    TagGroups(pre, src, post);
    LacksFromSlice(t, 4, n.srcAt, '>');
    LacksFromSlice(t, n.srcAt + 5, n.quote, '"');
    LacksFromSlice(t, n.quote + 1, n.close, '>');
    assert t[0] == t[..4][0] && t[1] == t[..4][1] && t[2] == t[..4][2] && t[3] == t[..4][3];
    var a := n.srcAt;
    assert t[a] == t[a..a + 5][0] && t[a + 1] == t[a..a + 5][1] && t[a + 2] == t[a..a + 5][2];
    assert t[a + 3] == t[a..a + 5][3] && t[a + 4] == t[a..a + 5][4];
  }

  /** With no second `src="` after the first, no `src="` starts inside the
      tag after its own, whatever follows the tag. */
  lemma TagNoLaterSrc(pre: string, src: string, post: string, right: string)
    requires NoSrcAttribute(src + "\"" + post)
    ensures var t, n := TagText(pre, src, post) + right, TagSpan(pre, src, post);
      forall b :: n.srcAt < b <= n.close ==> !SrcOpenAt(t, b)
  {
    var tag, n := TagText(pre, src, post), TagSpan(pre, src, post);
    var t, u := tag + right, src + "\"" + post;
    var a, c := n.srcAt, n.close;
    TagGroups(pre, src, post);
    forall b | a < b <= c ensures !SrcOpenAt(t, b) {
      if b < a + 5 {
        assert t[b] == tag[a..a + 5][b - a];
      } else if b + 5 > c {
        assert t[c] == tag[c];
      } else {
        forall k | b <= k < b + 5 ensures u[k - a - 5] == t[k] {
          assert t[k] == tag[a + 5..c][k - a - 5];
        }
        assert SrcOpenAt(t, b) == SrcOpenAt(u, b - a - 5);
      }
    }
  }

  /** Hence the greedy group cannot reach past the tag's own `src="`. */
  lemma TagGreedy(pre: string, src: string, post: string, right: string, m: Span)
    requires NoSrcAttribute(src + "\"" + post)
    requires IsMatch(TagText(pre, src, post) + right, m) && m.start == 0
    ensures m.srcAt <= 4 + |pre|
  {
    var t, n := TagText(pre, src, post) + right, TagSpan(pre, src, post);
    TagGroups(pre, src, post);
    TagNoLaterSrc(pre, src, post, right);
    assert t[n.close] == '>';
    assert m.srcAt <= n.close;
  }

  /** Text without `<img` followed by text starting with `<` has no `<img`
      starting inside the first text, not even one that runs across the
      boundary. */
  lemma NoImgAcross(left: string, y: string)
    requires forall i: nat :: !ImgOpenAt(left, i)
    requires |y| > 0 && y[0] == '<'
    ensures forall i: nat :: i < |left| ==> !ImgOpenAt(left + y, i)
  {
    var s := left + y;
    forall i: nat | i < |left| ensures !ImgOpenAt(s, i) {
      if i + 4 <= |left| {
        assert !ImgOpenAt(left, i);
        assert s[i] == left[i] && s[i + 1] == left[i + 1] && s[i + 2] == left[i + 2] && s[i + 3] == left[i + 3];
      } else {
        assert s[|left|] == '<';
      }
    }
  }

  /** The tag after text with no `<img` is the first match. */
  lemma TagIsFirstMatch(left: string, pre: string, src: string, post: string, right: string)
    requires forall i: nat :: !ImgOpenAt(left, i)
    requires '>' !in pre && '"' !in src && '>' !in post
    requires NoSrcAttribute(src + "\"" + post)
    ensures FindFrom(left + TagText(pre, src, post) + right, 0)
      == Some(TagSpan(pre, src, post).Shift(|left|))
  {
    var tag := TagText(pre, src, post);
    var s, y := left + tag + right, tag + right;
    var m := TagSpan(pre, src, post);
    var n := m.Shift(|left|);
    assert s == left + y;
    TagMatches(pre, src, post);
    MatchExtends(tag, right, m);
    MatchShift(left, y, m);
    assert y[0] == '<';
    NoImgAcross(left, y);
    forall n' | IsMatch(s, n') ensures n.start <= n'.start {
      assert ImgOpenAt(s, n'.start);
    }
    forall n' | IsMatch(s, n') && n'.start == n.start ensures n'.srcAt <= n.srcAt {
      var m' := MatchUnshift(left, y, n');
      TagGreedy(pre, src, post, right, m');
    }
    FindIsFirst(s, 0, n);
  }

  /** The tag after `left` is a match with the tag's own groups, and it ends
      where the tag ends. */
  lemma TagGroupsAfter(left: string, pre: string, src: string, post: string, right: string)
    requires '>' !in pre && '"' !in src && '>' !in post
    ensures var tag := TagText(pre, src, post);
      var s, n := left + tag + right, TagSpan(pre, src, post).Shift(|left|);
      && IsMatch(s, n) && n.close + 1 == |left| + |tag|
      && Pre(s, n) == pre && Src(s, n) == src && Post(s, n) == post
  {
    var tag, m := TagText(pre, src, post), TagSpan(pre, src, post);
    TagMatches(pre, src, post);
    TagGroups(pre, src, post);
    GroupsExtend(tag, right, m);
    var s, y := left + tag + right, tag + right;
    Associative(left, tag, right);
    assert s[|left|..] == y;
    GroupsInSuffix(s, |left|, m);
  }

  /** The pieces of text, tag and rest. */
  lemma ScanTextThenTag(left: string, pre: string, src: string, post: string, right: string)
    requires forall i: nat :: !ImgOpenAt(left, i)
    requires '>' !in pre && '"' !in src && '>' !in post
    requires NoSrcAttribute(src + "\"" + post)
    ensures var s, img := left + TagText(pre, src, post) + right, Image(pre, src, post);
      Scan(s) == if left == [] then Then(img, Scan(right))
                 else Then(Verbatim(left), Then(img, Scan(right)))
  {
    var x := left + TagText(pre, src, post);
    var s := x + right;
    TagIsFirstMatch(left, pre, src, post, right);
    TagGroupsAfter(left, pre, src, post, right);
    assert s[..|left|] == left;
    assert s[|x|..] == right;
  }

  /** Every step of the global replace: the text before the first match is
      kept, the match becomes `![alt](src)` built from its own groups, and
      the text after its `>` is rewritten on its own. */
  lemma RewriteStep(s: string, m: Span)
    requires IsFirstMatchFrom(s, 0, m)
    ensures Rewrite(s) == s[..m.start] + ImageMarkdown(AltText(Post(s, m)), Src(s, m)) + Rewrite(s[m.close + 1..])
  {
    FindIsFirst(s, 0, m);
    var rest := Scan(s[m.close + 1..]);
    var img := Image(Pre(s, m), Src(s, m), Post(s, m));
    assert Scan(s) == Cut(s, m, rest);
    assert s[..m.start] == [] <==> m.start == 0;
    EmitTextThenImage(s[..m.start], img, rest);
  }

  /** A tag after text with no `<img`, such as the `<p>` that opens a
      rendered paragraph: the text is kept, the tag becomes `![alt](src)`
      with alt from the part after the src, and the rest is rewritten on its
      own. The last requirement rules out a second `src="` after the first,
      which the greedy `([^>]*)` would prefer. */
  lemma RewriteTextThenTag(left: string, pre: string, src: string, post: string, right: string)
    requires forall i: nat :: !ImgOpenAt(left, i)
    requires '>' !in pre && '"' !in src && '>' !in post
    requires NoSrcAttribute(src + "\"" + post)
    ensures Rewrite(left + TagText(pre, src, post) + right)
      == left + ImageMarkdown(AltText(post), src) + Rewrite(right)
  {
    ScanTextThenTag(left, pre, src, post, right);
    EmitTextThenImage(left, Image(pre, src, post), Scan(right));
  }

  /** What text, an image and further pieces emit. */
  lemma EmitTextThenImage(left: string, img: Piece, rest: Pieces)
    ensures EmitAll(if left == [] then Then(img, rest) else Then(Verbatim(left), Then(img, rest)))
      == left + Emit(img) + EmitAll(rest)
  {
    var e, r := Emit(img), EmitAll(rest);
    if left != [] {
      assert EmitAll(Then(Verbatim(left), Then(img, rest))) == left + (e + r);
      Associative(left, e, r);
    } else {
      EmptyAround(e + r);
    }
  }
}
