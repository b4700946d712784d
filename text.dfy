/** Small vocabulary over strings shared by the rest of the model: an optional
    value, "no such character in this range", the left-to-right search for a
    character that a regular-expression engine performs when it runs a
    negated character class such as `[^"]*` up to the next `"`, and a few
    identities about slices of concatenated strings. */
module Text {

  datatype Option<+T> = None | Some(value: T)

  /** No `c` among `s[lo..hi]`, and that range lies inside `s`. */
  ghost predicate Lacks(s: string, lo: nat, hi: nat, c: char) {
    hi <= |s| && forall j :: lo <= j < hi ==> s[j] != c
  }

  /** `s` ends with `suffix`, as the `$` anchor requires of the text before it. */
  predicate EndsWith(s: string, suffix: string) {
    |suffix| <= |s| && s[|s| - |suffix|..] == suffix
  }

  /** The index of the first `c` in `s` at or after `i`, if there is one. */
  function IndexOf(s: string, c: char, i: nat): (r: Option<nat>)
    decreases |s| - i
    ensures r.Some? ==> i <= r.value < |s| && s[r.value] == c
    ensures r.Some? ==> forall j :: i <= j < r.value ==> s[j] != c
    ensures r.None? ==> forall j :: i <= j < |s| ==> s[j] != c
  {
    if i >= |s| then None
    else if s[i] == c then Some(i)
    else IndexOf(s, c, i + 1)
  }

  /** Text in front moves a range without a character, and back. */
  lemma LacksShift(x: string, y: string, lo: nat, hi: nat, c: char)
    ensures Lacks(y, lo, hi, c) <==> Lacks(x + y, |x| + lo, |x| + hi, c)
  {
    var s, d := x + y, |x|;
    if Lacks(y, lo, hi, c) {
      forall j | d + lo <= j < d + hi ensures s[j] != c {
        assert s[j] == y[j - d];
      }
    }
    if Lacks(s, d + lo, d + hi, c) {
      forall j | lo <= j < hi ensures y[j] != c {
        assert s[d + j] == y[j];
      }
    }
  }

  /** A range without a character in a suffix is one in the whole text, and back. */
  lemma LacksInSuffix(s: string, p: nat, lo: nat, hi: nat, c: char)
    requires p <= |s|
    ensures Lacks(s[p..], lo, hi, c) <==> Lacks(s, p + lo, p + hi, c)
  {
    var y := s[p..];
    if Lacks(y, lo, hi, c) {
      forall j | p + lo <= j < p + hi ensures s[j] != c {
        assert s[j] == y[j - p];
      }
    }
    if Lacks(s, p + lo, p + hi, c) {
      forall j | lo <= j < hi ensures y[j] != c {
        assert y[j] == s[p + j];
      }
    }
  }

  /** A slice of a suffix is a slice of the whole text. */
  lemma SuffixSlice(s: string, p: nat, i: nat, j: nat)
    requires p + i <= p + j <= |s|
    ensures s[p..][i..j] == s[p + i..p + j]
  {
  }

  /** A slice is the concatenation of its two halves. */
  lemma SliceSplit(s: string, i: nat, j: nat, k: nat)
    requires i <= j <= k <= |s|
    ensures s[i..k] == s[i..j] + s[j..k]
  {
  }

  /** `Lacks` read off a slice. */
  lemma LacksFromSlice(s: string, lo: nat, hi: nat, c: char)
    requires lo <= hi <= |s| && c !in s[lo..hi]
    ensures Lacks(s, lo, hi, c)
  {
    forall j | lo <= j < hi ensures s[j] != c {
      assert s[j] == s[lo..hi][j - lo];
    }
  }

  /** A slice cut at six inner points is its seven parts in order. */
  lemma SevenParts(s: string, i0: nat, i1: nat, i2: nat, i3: nat, i4: nat, i5: nat, i6: nat, i7: nat)
    requires i0 <= i1 <= i2 <= i3 <= i4 <= i5 <= i6 <= i7 <= |s|
    ensures s[i0..i7] == s[i0..i1] + s[i1..i2] + s[i2..i3] + s[i3..i4] + s[i4..i5] + s[i5..i6] + s[i6..i7]
  {
    SliceSplit(s, i0, i6, i7);
    SliceSplit(s, i0, i5, i6);
    SliceSplit(s, i0, i4, i5);
    SliceSplit(s, i0, i3, i4);
    SliceSplit(s, i0, i2, i3);
    SliceSplit(s, i0, i1, i2);
  }

  /** Concatenation is associative. */
  lemma Associative(a: string, b: string, c: string)
    ensures a + (b + c) == a + b + c
  {
  }

  /** A text is its prefix, a middle slice and its suffix. */
  lemma ThreeParts(s: string, i: nat, j: nat)
    requires i <= j <= |s|
    ensures s == s[..i] + s[i..j] + s[j..]
  {
  }

  /** Empty text on both sides changes nothing. */
  lemma EmptyAround(s: string)
    ensures "" + s + "" == s
  {
  }
}
