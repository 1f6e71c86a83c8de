/**
 Substring search, counting and replacement over sequences, following the
 scanning rule of Python's `str.count` and `str.replace`: the text is read
 left to right; where the pattern starts, that occurrence is taken and the
 scan resumes right after it (occurrences never overlap); elsewhere one
 element is passed over. The pattern is never empty here.
 */
module Substrings {

  /** `s` begins with `p`. */
  predicate StartsWith<T(==)>(s: seq<T>, p: seq<T>) {
    |p| <= |s| && s[..|p|] == p
  }

  /** `p` occurs in `s` at index `i`. */
  predicate OccursAt<T(==)>(s: seq<T>, p: seq<T>, i: int) {
    0 <= i && i + |p| <= |s| && s[i..i + |p|] == p
  }

  /** `p` occurs somewhere in `s`: the reference meaning of Python's `p in s`. */
  predicate Contains<T(==)>(s: seq<T>, p: seq<T>) {
    exists i | 0 <= i <= |s| - |p| :: OccursAt(s, p, i)
  }

  /** Shifting `p` right by `k` places makes it agree with itself on the overlap. */
  predicate SelfOverlapsAt<T(==)>(p: seq<T>, k: int)
    requires 0 < k < |p|
  {
    p[k..] == p[..|p| - k]
  }

  /** No two occurrences of `p` can overlap in any text. */
  predicate NoSelfOverlap<T(==)>(p: seq<T>) {
    forall k :: 0 < k < |p| ==> !SelfOverlapsAt(p, k)
  }

  /** The tail of `rep` from index `i` is a proper prefix of `pat`: an occurrence
      of `pat` could start inside `rep` and run on into whatever follows it. */
  predicate OverhangsAt<T(==)>(rep: seq<T>, pat: seq<T>, i: int) {
    0 <= i < |rep| && |rep| - i < |pat| && StartsWith(pat, rep[i..])
  }

  /** Inserting `rep` into any text can never create an occurrence of `pat`:
      `rep` holds no `pat`, no occurrence can begin before `rep` and reach
      into it (its first element is not in `pat`), and none can begin inside
      `rep` and reach past it. */
  predicate NoBoundaryMatch<T(==)>(pat: seq<T>, rep: seq<T>) {
    && |rep| > 0
    && rep[0] !in pat
    && !Contains(rep, pat)
    && forall i | 0 <= i < |rep| :: !OverhangsAt(rep, pat, i)
  }

  /** Python's `s.count(pat)`: the number of occurrences the left-to-right,
      non-overlapping scan takes. */
  function CountOcc<T(==)>(s: seq<T>, pat: seq<T>): (n: nat)
    requires |pat| > 0
    ensures n * |pat| <= |s|
    decreases |s|
  {
    if StartsWith(s, pat) then
      var m := CountOcc(s[|pat|..], pat);
      MulSucc(m, |pat|);
      1 + m
    else if |s| == 0 then 0
    else CountOcc(s[1..], pat)
  }

  /** The number of indices at which `pat` occurs, overlapping or not. */
  function NaiveCount<T(==)>(s: seq<T>, pat: seq<T>): (n: nat)
    requires |pat| > 0
    ensures n <= |s|
    decreases |s|
  {
    if |s| == 0 then 0
    else (if StartsWith(s, pat) then 1 else 0) + NaiveCount(s[1..], pat)
  }

  /** Python's `s.replace(pat, rep)`: each occurrence the scan takes is
      replaced by `rep`, everything else is copied. */
  function ReplaceAll<T(==)>(s: seq<T>, pat: seq<T>, rep: seq<T>): seq<T>
    requires |pat| > 0
    decreases |s|
  {
    if StartsWith(s, pat) then rep + ReplaceAll(s[|pat|..], pat, rep)
    else if |s| == 0 then []
    else [s[0]] + ReplaceAll(s[1..], pat, rep)
  }

  /** Every occurrence the scan takes changes the length by `|rep| - |pat|`
      and nothing else changes it. */
  lemma {:induction false} ReplaceAllLength<T>(s: seq<T>, pat: seq<T>, rep: seq<T>)
    requires |pat| > 0
    ensures |ReplaceAll(s, pat, rep)| == |s| + CountOcc(s, pat) * (|rep| - |pat|)
    decreases |s|
  {
    if StartsWith(s, pat) {
      ReplaceAllLength(s[|pat|..], pat, rep);
      MulSucc(CountOcc(s[|pat|..], pat), |rep| - |pat|);
    } else if |s| > 0 {
      ReplaceAllLength(s[1..], pat, rep);
    }
  }

  /** One more occurrence adds one more multiple of the length change. */
  lemma MulSucc(m: int, d: int)
    ensures (1 + m) * d == d + m * d
  {
  }

  /** One left-to-right scan that performs the replacement and counts each
      substitution as it makes it; the count it reaches is `CountOcc` of the
      original text, so counting before or after replacing agrees. */
  method ReplaceCounting<T(==)>(s: seq<T>, pat: seq<T>, rep: seq<T>) returns (r: seq<T>, n: nat)
    requires |pat| > 0
    ensures r == ReplaceAll(s, pat, rep)
    ensures n == CountOcc(s, pat)
  {
    r := [];
    n := 0;
    var i := 0;
    while i < |s|
      invariant 0 <= i <= |s|
      invariant r + ReplaceAll(s[i..], pat, rep) == ReplaceAll(s, pat, rep)
      invariant n + CountOcc(s[i..], pat) == CountOcc(s, pat)
    {
      if StartsWith(s[i..], pat) {
        assert s[i..][|pat|..] == s[i + |pat|..];
        r := r + rep;
        n := n + 1;
        i := i + |pat|;
      } else {
        assert s[i..][1..] == s[i + 1..];
        r := r + [s[i]];
        i := i + 1;
      }
    }
  }

  /** An occurrence in a suffix is an occurrence in the whole text. */
  lemma OccursInSuffix<T>(s: seq<T>, p: seq<T>, k: nat, i: int)
    requires k <= |s|
    requires OccursAt(s[k..], p, i)
    ensures OccursAt(s, p, i + k)
  {
  }

  /** A text without the first element of `p` cannot contain `p`. */
  lemma MissingFirstMeansAbsent<T>(s: seq<T>, p: seq<T>)
    requires |p| > 0
    requires p[0] !in s
    ensures !Contains(s, p)
  {
  }

  /** A pattern whose first element does not recur in it cannot overlap itself. */
  lemma UniqueFirstNoSelfOverlap<T>(p: seq<T>)
    requires |p| > 0
    requires p[0] !in p[1..]
    ensures NoSelfOverlap(p)
  {
  }

  /** A text containing no `pat` comes back from the replacement unchanged. */
  lemma {:induction false} ReplaceAllAbsent<T>(s: seq<T>, pat: seq<T>, rep: seq<T>)
    requires |pat| > 0
    requires !Contains(s, pat)
    ensures ReplaceAll(s, pat, rep) == s
    decreases |s|
  {
    if StartsWith(s, pat) {
      assert OccursAt(s, pat, 0);
      assert false;
    } else if |s| > 0 {
      if Contains(s[1..], pat) {
        var i :| 0 <= i <= |s[1..]| - |pat| && OccursAt(s[1..], pat, i);
        OccursInSuffix(s, pat, 1, i);
        assert false;
      }
      ReplaceAllAbsent(s[1..], pat, rep);
      assert [s[0]] + s[1..] == s;
    }
  }

  /** The scan takes at least one occurrence exactly when there is one. */
  lemma {:induction false} CountOccPositiveIffContains<T>(s: seq<T>, pat: seq<T>)
    requires |pat| > 0
    ensures CountOcc(s, pat) > 0 <==> Contains(s, pat)
    decreases |s|
  {
    if StartsWith(s, pat) {
      assert OccursAt(s, pat, 0);
    } else if |s| == 0 {
    } else {
      CountOccPositiveIffContains(s[1..], pat);
      if Contains(s, pat) {
        var i :| 0 <= i <= |s| - |pat| && OccursAt(s, pat, i);
        assert i != 0;
        assert s[1..][i - 1..i - 1 + |pat|] == s[i..i + |pat|];
        assert OccursAt(s[1..], pat, i - 1);
      }
      if Contains(s[1..], pat) {
        var i :| 0 <= i <= |s[1..]| - |pat| && OccursAt(s[1..], pat, i);
        OccursInSuffix(s, pat, 1, i);
      }
    }
  }

  /** Where the replaced text shows no element `rep[0]` in its first `k`
      places, those places are copied unchanged from the input. */
  lemma {:induction false} ReplaceAllKeepsPrefix<T>(t: seq<T>, pat: seq<T>, rep: seq<T>, k: nat)
    requires |pat| > 0 && |rep| > 0
    requires k <= |ReplaceAll(t, pat, rep)|
    ensures rep[0] !in ReplaceAll(t, pat, rep)[..k] ==>
              k <= |t| && t[..k] == ReplaceAll(t, pat, rep)[..k]
    decreases |t|
  {
    var r := ReplaceAll(t, pat, rep);
    if k == 0 {
    } else if StartsWith(t, pat) {
      assert r[..k][0] == rep[0];
    } else {
      var r' := ReplaceAll(t[1..], pat, rep);
      assert r == [t[0]] + r';
      assert r[..k] == [t[0]] + r'[..k - 1];
      ReplaceAllKeepsPrefix(t[1..], pat, rep, k - 1);
      if rep[0] !in r[..k] {
        assert t[..k] == [t[0]] + t[1..][..k - 1];
      }
    }
  }

  /** A `rep` placed in front of a text free of `pat` leaves it free of `pat`. */
  lemma NoMatchAfterRep<T>(rep: seq<T>, t: seq<T>, pat: seq<T>)
    requires |pat| > 0
    requires NoBoundaryMatch(pat, rep)
    requires !Contains(t, pat)
    ensures !Contains(rep + t, pat)
  {
    var r := rep + t;
    forall i | 0 <= i <= |r| - |pat|
      ensures !OccursAt(r, pat, i)
    {
      if i + |pat| <= |rep| {
        // wholly inside `rep`
        assert r[i..i + |pat|] == rep[i..i + |pat|];
        assert !OccursAt(rep, pat, i);
      } else if i < |rep| {
        // starting inside `rep` and running past its end
        assert r[i..|rep|] == rep[i..];
        assert r[i..i + |pat|][..|rep| - i] == r[i..|rep|];
        assert !OverhangsAt(rep, pat, i);
      } else {
        // wholly inside `t`
        assert r[i..i + |pat|] == t[i - |rep|..i - |rep| + |pat|];
        assert !OccursAt(t, pat, i - |rep|);
      }
    }
  }

  /** Copying an element that does not start `pat` in front of the
      replacement of the rest creates no occurrence of `pat`. An occurrence at
      the copied element would run on into the replaced rest: if that part
      holds rep[0] it cannot be part of `pat`; otherwise it is copied input,
      and the input itself would start with `pat`. */
  lemma NoMatchAfterCopy<T>(s: seq<T>, pat: seq<T>, rep: seq<T>)
    requires |pat| > 0
    requires NoBoundaryMatch(pat, rep)
    requires |s| > 0 && !StartsWith(s, pat)
    requires !Contains(ReplaceAll(s[1..], pat, rep), pat)
    ensures !Contains([s[0]] + ReplaceAll(s[1..], pat, rep), pat)
  {
    var t := ReplaceAll(s[1..], pat, rep);
    var r := [s[0]] + t;
    forall i | 1 <= i <= |r| - |pat|
      ensures !OccursAt(r, pat, i)
    {
      assert r[i..i + |pat|] == t[i - 1..i - 1 + |pat|];
      assert !OccursAt(t, pat, i - 1);
    }
    var k := |pat| - 1;
    if k <= |t| {
      assert r[..|pat|] == [s[0]] + t[..k];
      if rep[0] in t[..k] {
        assert rep[0] !in pat[1..];
        assert !OccursAt(r, pat, 0);
      } else {
        ReplaceAllKeepsPrefix(s[1..], pat, rep, k);
        assert s[..|pat|] == [s[0]] + s[1..][..k];
        assert !OccursAt(r, pat, 0);
      }
    }
  }

  /** When `rep` cannot form `pat` with its surroundings, the replacement
      leaves no occurrence of `pat` behind: every occurrence is replaced. */
  lemma {:induction false} ReplaceAllRemovesAll<T>(s: seq<T>, pat: seq<T>, rep: seq<T>)
    requires |pat| > 0
    requires NoBoundaryMatch(pat, rep)
    ensures !Contains(ReplaceAll(s, pat, rep), pat)
    decreases |s|
  {
    if StartsWith(s, pat) {
      ReplaceAllRemovesAll(s[|pat|..], pat, rep);
      NoMatchAfterRep(rep, ReplaceAll(s[|pat|..], pat, rep), pat);
    } else if |s| > 0 {
      ReplaceAllRemovesAll(s[1..], pat, rep);
      NoMatchAfterCopy(s, pat, rep);
    }
  }

  /** No occurrence of `pat` in `a + b` starts inside `a` and ends inside `b`. */
  predicate NoStraddle<T(==)>(a: seq<T>, b: seq<T>, pat: seq<T>) {
    forall i :: 0 <= i < |a| < i + |pat| ==> !OccursAt(a + b, pat, i)
  }

  /** Dropping a prefix of `a` keeps the join free of straddling occurrences. */
  lemma NoStraddleSuffix<T>(a: seq<T>, b: seq<T>, pat: seq<T>, k: nat)
    requires k <= |a|
    requires NoStraddle(a, b, pat)
    ensures NoStraddle(a[k..], b, pat)
  {
    var s := a + b;
    var a' := a[k..];
    assert a' + b == s[k..];
    forall i | 0 <= i < |a'| < i + |pat|
      ensures !OccursAt(a' + b, pat, i)
    {
      if i + |pat| <= |a' + b| {
        assert (a' + b)[i..i + |pat|] == s[i + k..i + k + |pat|];
        assert !OccursAt(s, pat, i + k);
      }
    }
  }

  /** Replacing in a concatenation is replacing in each part, provided no
      occurrence of `pat` straddles the join: the text between occurrences
      is carried through verbatim. */
  lemma {:induction false} ReplaceAllConcat<T>(a: seq<T>, b: seq<T>, pat: seq<T>, rep: seq<T>)
    requires |pat| > 0
    requires NoStraddle(a, b, pat)
    ensures ReplaceAll(a + b, pat, rep) == ReplaceAll(a, pat, rep) + ReplaceAll(b, pat, rep)
    decreases |a|
  {
    var s := a + b;
    if |a| == 0 {
      assert s == b;
    } else if StartsWith(s, pat) {
      assert OccursAt(s, pat, 0);
      assert a[..|pat|] == s[..|pat|];
      NoStraddleSuffix(a, b, pat, |pat|);
      assert s[|pat|..] == a[|pat|..] + b;
      ReplaceAllConcat(a[|pat|..], b, pat, rep);
    } else {
      if |pat| <= |a| {
        assert s[..|pat|] == a[..|pat|];
      }
      NoStraddleSuffix(a, b, pat, 1);
      assert s[1..] == a[1..] + b;
      ReplaceAllConcat(a[1..], b, pat, rep);
    }
  }

  /** A separator element that is not part of `pat` splits the replacement. */
  lemma ReplaceAllAcrossSeparator<T>(a: seq<T>, c: T, b: seq<T>, pat: seq<T>, rep: seq<T>)
    requires |pat| > 0
    requires c !in pat
    ensures ReplaceAll(a + [c] + b, pat, rep)
         == ReplaceAll(a, pat, rep) + [c] + ReplaceAll(b, pat, rep)
  {
    var cb := [c] + b;
    assert a + [c] + b == a + cb;
    forall i | 0 <= i < |a| < i + |pat|
      ensures !OccursAt(a + cb, pat, i)
    {
      if i + |pat| <= |a + cb| {
        assert (a + cb)[i..i + |pat|][|a| - i] == c;
      }
    }
    ReplaceAllConcat(a, cb, pat, rep);
    if |pat| <= |cb| {
      assert cb[..|pat|][0] == c;
    }
    assert cb[1..] == b;
  }

  /** For a pattern that cannot overlap itself, the scan's count is the
      number of indices where the pattern occurs: none is passed over. */
  lemma {:induction false} CountOccIsNaiveCount<T>(s: seq<T>, pat: seq<T>)
    requires |pat| > 0
    requires NoSelfOverlap(pat)
    ensures CountOcc(s, pat) == NaiveCount(s, pat)
    decreases |s|
  {
    if StartsWith(s, pat) {
      CountOccIsNaiveCount(s[|pat|..], pat);
      NaiveCountSkipsInside(s, pat, 1);
    } else if |s| > 0 {
      CountOccIsNaiveCount(s[1..], pat);
    }
  }

  /** Inside an occurrence of a non-overlapping pattern no other occurrence
      starts, so the naive count from index `j` equals the count from its end. */
  lemma {:induction false} NaiveCountSkipsInside<T>(s: seq<T>, pat: seq<T>, j: nat)
    requires |pat| > 0
    requires NoSelfOverlap(pat)
    requires StartsWith(s, pat)
    requires 1 <= j <= |pat|
    ensures NaiveCount(s[j..], pat) == NaiveCount(s[|pat|..], pat)
    decreases |pat| - j
  {
    if j < |pat| {
      assert !StartsWith(s[j..], pat) by {
        if StartsWith(s[j..], pat) {
          assert pat[j..] == s[j..|pat|] == pat[..|pat| - j];
          assert SelfOverlapsAt(pat, j);
          assert false;
        }
      }
      assert s[j..][1..] == s[j + 1..];
      NaiveCountSkipsInside(s, pat, j + 1);
    }
  }
}
