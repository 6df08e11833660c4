/** Character-level string operations used by the draft encoder and its decoder. */
module Text {
  import opened Results

  /** `s` with every occurrence of the character `from` replaced by `to`: a global replace of a one-character pattern. */
  function ReplaceAll(s: string, from: char, to: char): (r: string)
    ensures |r| == |s|
    ensures forall i :: 0 <= i < |s| ==> r[i] == (if s[i] == from then to else s[i])
  {
    if |s| == 0 then [] else [if s[0] == from then to else s[0]] + ReplaceAll(s[1..], from, to)
  }

  /** Replacing `a` by `b` and then `b` by `a` is lossless when `b` did not occur to begin with. */
  lemma ReplaceAllInverse(s: string, a: char, b: char)
    requires b !in s
    ensures ReplaceAll(ReplaceAll(s, a, b), b, a) == s
  {
    var r := ReplaceAll(ReplaceAll(s, a, b), b, a);
    forall i | 0 <= i < |s|
      ensures r[i] == s[i]
    {
      assert s[i] != b;
    }
  }

  /** Replacement works piecewise on a concatenation. */
  lemma ReplaceAllConcat(a: string, b: string, from: char, to: char)
    ensures ReplaceAll(a + b, from, to) == ReplaceAll(a, from, to) + ReplaceAll(b, from, to)
  {
    var l, r := ReplaceAll(a + b, from, to), ReplaceAll(a, from, to) + ReplaceAll(b, from, to);
    assert |l| == |r|;
    forall i | 0 <= i < |l|
      ensures l[i] == r[i]
    {
      if i < |a| {
        assert (a + b)[i] == a[i];
      } else {
        assert (a + b)[i] == b[i - |a|];
      }
    }
  }

  /** `k` copies of `c`. */
  function Repeat(c: char, k: nat): (r: string)
    ensures |r| == k
    ensures forall i :: 0 <= i < k ==> r[i] == c
  {
    if k == 0 then [] else Repeat(c, k - 1) + [c]
  }

  /** Replacement leaves a run of some other character alone. */
  lemma ReplaceAllRepeat(c: char, k: nat, from: char, to: char)
    requires c != from
    ensures ReplaceAll(Repeat(c, k), from, to) == Repeat(c, k)
  {
  }

  /**
   * `s` without the longest run of `c` at its end: removing the leftmost match of one or more `c`
   * anchored at the end, which starts where that run starts, so exactly the run goes.
   */
  function StripTrailing(s: string, c: char): (r: string)
    ensures r <= s
    ensures forall i :: |r| <= i < |s| ==> s[i] == c
    ensures |r| == 0 || r[|r| - 1] != c
  {
    if |s| == 0 || s[|s| - 1] != c then s else StripTrailing(s[..|s| - 1], c)
  }

  /** Stripping a run of `c` appended to a string that does not end in `c` gives that string back. */
  lemma {:induction false} StripTrailingRepeat(p: string, c: char, k: nat)
    requires |p| == 0 || p[|p| - 1] != c
    ensures StripTrailing(p + Repeat(c, k), c) == p
  {
    if k == 0 {
      assert p + Repeat(c, k) == p;
    } else {
      var s := p + Repeat(c, k);
      assert s[..|s| - 1] == p + Repeat(c, k - 1);
      StripTrailingRepeat(p, c, k - 1);
    }
  }

  /** `pat` occurs in `s` starting at index `i`. */
  predicate OccursAt(s: string, pat: string, i: nat)
  {
    i + |pat| <= |s| && s[i..i + |pat|] == pat
  }

  /** An occurrence of a non-empty pattern starts with the pattern's first character. */
  lemma OccurrenceStart(s: string, pat: string, i: nat)
    requires |pat| > 0 && OccursAt(s, pat, i)
    ensures s[i] == pat[0]
  {
    assert s[i] == s[i..i + |pat|][0];
  }

  /** The index of the first occurrence of `pat` in `s`, if there is one. */
  function IndexOf(s: string, pat: string): (r: Option<nat>)
    ensures r.Some? ==> OccursAt(s, pat, r.value)
    ensures r.Some? ==> forall j :: 0 <= j < r.value ==> !OccursAt(s, pat, j)
    ensures r.None? ==> forall j :: 0 <= j ==> !OccursAt(s, pat, j)
    decreases |s|
  {
    if |s| < |pat| then None
    else if s[..|pat|] == pat then Some(0)
    else
      assert !OccursAt(s, pat, 0) by { assert s[0..|pat|] == s[..|pat|]; }
      OccursAtTail(s, pat);
      match IndexOf(s[1..], pat)
      case None => None
      case Some(k) => Some(k + 1)
  }

  /** An occurrence at index `j >= 1` of `s` is an occurrence at `j - 1` of `s[1..]`, and conversely. */
  lemma OccursAtTail(s: string, pat: string)
    requires |s| > 0
    ensures forall j: nat :: 1 <= j ==> OccursAt(s, pat, j) == OccursAt(s[1..], pat, j - 1)
  {
    forall j: nat | 1 <= j
      ensures OccursAt(s, pat, j) == OccursAt(s[1..], pat, j - 1)
    {
      if j + |pat| <= |s| {
        var a, b := s[j..j + |pat|], s[1..][j - 1..j - 1 + |pat|];
        assert |a| == |b|;
        forall k | 0 <= k < |a|
          ensures a[k] == b[k]
        {
        }
        assert a == b;
      }
    }
  }
}
