/**
 * Where the four replacements cut. A seam is the end of a message text next to
 * the start of another one, with at most one line break between them.
 */
module DechunkerSeams {
  import opened Dechunker

  /** s[..p] ends with "}" or "}]". */
  predicate LeftEnd(s: string, p: int) {
    LeftAt(false, s, p - 1) || LeftAt(true, s, p - 2)
  }

  /** s[q..] starts with "{" or "[{". */
  predicate RightStart(s: string, q: int) {
    RightAt(false, s, q) || RightAt(true, s, q)
  }

  predicate Seam(s: string, p: int, q: int) {
    LeftEnd(s, p) && RightStart(s, q) && (q == p || (q == p + 1 && IsBreak(s[p])))
  }

  predicate SeamAt(s: string, p: int) {
    Seam(s, p, p) || Seam(s, p, p + 1)
  }

  predicate NoSeam(s: string) {
    forall p :: 0 <= p <= |s| ==> !SeamAt(s, p)
  }

  predicate NoSeparator(s: string) {
    forall i :: 0 <= i <= |s| ==> !SeparatorAt(s, i)
  }

  /** The first seam at or after p, or |s| + 1. */
  function FirstSeam(s: string, p: nat): (r: nat)
    requires p <= |s| + 1
    ensures p <= r <= |s| + 1
    ensures forall i :: p <= i < r ==> !SeamAt(s, i)
    ensures r <= |s| ==> SeamAt(s, r)
    decreases |s| + 1 - p
  {
    if p == |s| + 1 || SeamAt(s, p) then p else FirstSeam(s, p + 1)
  }

  /** Where the text goes on after the seam at p. */
  function Resume(s: string, p: nat): (q: nat)
    requires p <= |s| && SeamAt(s, p)
    ensures Seam(s, p, q) && p > 0
  {
    if Seam(s, p, p) then p else p + 1
  }

  /** The reference: cut at every seam, dropping the line break there. */
  function Pieces(s: string): (r: seq<string>)
    ensures |r| > 0
    decreases |s|
  {
    var p := FirstSeam(s, 0);
    if p == |s| + 1 then [s] else [s[..p]] + Pieces(s[Resume(s, p)..])
  }

  lemma {:induction false} Untouched(lb: bool, rb: bool, s: string, i: nat, n: nat)
    requires i <= n <= |s|
    requires forall k :: i <= k < n ==> MatchLength(lb, rb, s, k) == 0
    ensures ReplaceAll(lb, rb, s, i) == s[i..n] + ReplaceAll(lb, rb, s, n)
    decreases n - i
  {
    hide MatchLength, Left, Right;
    if i < n {
      Untouched(lb, rb, s, i + 1, n);
      assert s[i..n] == [s[i]] + s[i + 1..n];
    }
  }

  lemma {:induction false} MatchShift(lb: bool, rb: bool, a: string, b: string, i: nat)
    ensures MatchLength(lb, rb, a + b, |a| + i) == MatchLength(lb, rb, b, i)
    ensures i + MatchLength(lb, rb, b, i) <= |b| || MatchLength(lb, rb, b, i) == 0
  {
    var s := a + b;
    assert forall k :: 0 <= k < |b| ==> s[|a| + k] == b[k];
  }

  /** A rule sees only what lies ahead of it. */
  lemma {:induction false} Shift(lb: bool, rb: bool, a: string, b: string, i: nat)
    requires i <= |b|
    ensures ReplaceAll(lb, rb, a + b, |a| + i) == ReplaceAll(lb, rb, b, i)
    decreases |b| - i
  {
    hide MatchLength, ReplaceAll, Left, Right;
    MatchShift(lb, rb, a, b, i);
    var k, s := MatchLength(lb, rb, b, i), a + b;
    OneStep(lb, rb, b, i);
    OneStep(lb, rb, s, |a| + i);
    if i < |b| {
      assert s[|a| + i] == b[i];
      var next := if k > 0 then k else 1;
      if i + next <= |b| { Shift(lb, rb, a, b, i + next); }
    }
  }

  lemma {:induction false} OneStep(lb: bool, rb: bool, s: string, i: nat)
    requires i <= |s|
    ensures ReplaceAll(lb, rb, s, i) ==
      if i == |s| then ""
      else if MatchLength(lb, rb, s, i) > 0 then
        Left(lb) + SEPARATOR + Right(rb) + ReplaceAll(lb, rb, s, i + MatchLength(lb, rb, s, i))
      else [s[i]] + ReplaceAll(lb, rb, s, i + 1)
  {}

  predicate Gap(mid: string) {
    mid == "" || mid == "\n" || mid == "\r"
  }

  /** A piece of text that ends a message and holds no seam, what follows it, and the next message. */
  predicate AtSeam(a: string, mid: string, b: string) {
    NoSeam(a) && LeftEnd(a, |a|) && RightStart(b, 0) && (Gap(mid) || mid == SEPARATOR)
  }

  predicate EndsBatch(a: string) {
    a != "" && a[|a| - 1] == ']'
  }

  predicate StartsBatch(b: string) {
    b != "" && b[0] == '['
  }

  /** Before b no rule matches, except the one for this pair of kinds when a gap lies between. */
  lemma {:induction false} OnlyMatch(lb: bool, rb: bool, a: string, mid: string, b: string, i: nat)
    requires AtSeam(a, mid, b) && i < |a| + |mid|
    requires MatchLength(lb, rb, a + mid + b, i) > 0
    ensures mid != SEPARATOR && lb == EndsBatch(a) && rb == StartsBatch(b) && i == |a| - |Left(lb)|
  {
    var s := a + mid + b;
    assert forall k :: 0 <= k < |a| ==> s[k] == a[k];
    assert forall k :: 0 <= k < |mid| ==> s[|a| + k] == mid[k];
    assert forall k :: 0 <= k < |b| ==> s[|a| + |mid| + k] == b[k];
    assert s[i] == '}';
    assert i < |a|;
    var p := i + |Left(lb)|;
    var q := if RightAt(rb, s, p) then p else p + 1;
    if p < |a| {
      assert s[p] == a[p];
      assert q < |a|;
      assert Seam(a, p, q);
      assert SeamAt(a, p);
      assert false;
    }
  }

  lemma {:induction false} KeepsStart(lb: bool, rb: bool, b: string)
    requires RightStart(b, 0)
    ensures var r := ReplaceAll(lb, rb, b, 0); RightStart(r, 0) && StartsBatch(r) == StartsBatch(b)
  {
    var n := |Right(StartsBatch(b))|;
    Untouched(lb, rb, b, 0, n);
    assert b[0..n] == Right(StartsBatch(b));
  }

  lemma {:induction false} PiecesWhole(s: string)
    requires FirstSeam(s, 0) == |s| + 1
    ensures Pieces(s) == [s]
  {}

  lemma {:induction false} PiecesAtSeam(s: string, p: nat)
    requires p == FirstSeam(s, 0) && p <= |s|
    ensures Pieces(s) == [s[..p]] + Pieces(s[Resume(s, p)..])
  {}

  lemma {:induction false} CopyBeforeHit(lb: bool, rb: bool, a: string, mid: string, b: string)
    requires AtSeam(a, mid, b) && lb == EndsBatch(a)
    ensures |a| >= |Left(lb)|
    ensures ReplaceAll(lb, rb, a + mid + b, 0) ==
            a[..|a| - |Left(lb)|] + ReplaceAll(lb, rb, a + mid + b, |a| - |Left(lb)|)
  {
    var s := a + mid + b;
    var n := |a| - |Left(lb)|;
    forall i | 0 <= i < n ensures MatchLength(lb, rb, s, i) == 0 {
      if MatchLength(lb, rb, s, i) > 0 { OnlyMatch(lb, rb, a, mid, b, i); }
    }
    Untouched(lb, rb, s, 0, n);
    assert s[0..n] == a[..n];
  }

  lemma {:induction false} HitAtEnd(lb: bool, rb: bool, a: string, mid: string, b: string)
    requires AtSeam(a, mid, b) && mid != SEPARATOR && lb == EndsBatch(a) && rb == StartsBatch(b)
    ensures ReplaceAll(lb, rb, a + mid + b, |a| - |Left(lb)|) ==
            Left(lb) + SEPARATOR + Right(rb) + ReplaceAll(lb, rb, b, |Right(rb)|)
  {
    HitLength(lb, rb, a, mid, b);
    OneStep(lb, rb, a + mid + b, |a| - |Left(lb)|);
    Shift(lb, rb, a + mid, b, |Right(rb)|);
  }

  /** The rule for this pair of kinds puts the separator in place of the gap. */
  lemma {:induction false} RuleHits(lb: bool, rb: bool, a: string, mid: string, b: string)
    requires AtSeam(a, mid, b) && mid != SEPARATOR && lb == EndsBatch(a) && rb == StartsBatch(b)
    ensures ReplaceAll(lb, rb, a + mid + b, 0) == a + SEPARATOR + ReplaceAll(lb, rb, b, 0)
  {
    var n := |a| - |Left(lb)|;
    var rest := ReplaceAll(lb, rb, b, |Right(rb)|);
    CopyBeforeHit(lb, rb, a, mid, b);
    HitAtEnd(lb, rb, a, mid, b);
    assert ReplaceAll(lb, rb, b, 0) == Right(rb) + rest by {
      Untouched(lb, rb, b, 0, |Right(rb)|);
      assert b[0..|Right(rb)|] == Right(rb);
    }
    assert a == a[..n] + Left(lb);
    Regroup(a[..n], Left(lb), Right(rb), rest);
  }

  lemma {:induction false} Regroup(x: string, left: string, right: string, rest: string)
    ensures x + (left + SEPARATOR + right + rest) == (x + left) + SEPARATOR + (right + rest)
  {}

  lemma {:induction false} HitLength(lb: bool, rb: bool, a: string, mid: string, b: string)
    requires AtSeam(a, mid, b) && mid != SEPARATOR && lb == EndsBatch(a) && rb == StartsBatch(b)
    ensures MatchLength(lb, rb, a + mid + b, |a| - |Left(lb)|) == |Left(lb)| + |mid| + |Right(rb)|
  {
    var s := a + mid + b;
    assert forall k :: 0 <= k < |a| ==> s[k] == a[k];
    assert mid != "" ==> s[|a|] == mid[0];
    assert forall k :: 0 <= k < |b| ==> s[|a| + |mid| + k] == b[k];
  }

  /** Any other rule passes by; so does every rule once the separator is there. */
  lemma {:induction false} RuleMisses(lb: bool, rb: bool, a: string, mid: string, b: string)
    requires AtSeam(a, mid, b) && (mid == SEPARATOR || lb != EndsBatch(a) || rb != StartsBatch(b))
    ensures ReplaceAll(lb, rb, a + mid + b, 0) == a + mid + ReplaceAll(lb, rb, b, 0)
  {
    var s := a + mid + b;
    var n := |a| + |mid|;
    forall i | 0 <= i < n ensures MatchLength(lb, rb, s, i) == 0 {
      if MatchLength(lb, rb, s, i) > 0 { OnlyMatch(lb, rb, a, mid, b, i); }
    }
    Untouched(lb, rb, s, 0, n);
    assert s[0..n] == a + mid;
    Shift(lb, rb, a + mid, b, 0);
  }

  lemma {:induction false} RuleAtSeam(lb: bool, rb: bool, a: string, mid: string, b: string) returns (mid': string,
      b': string)
    requires AtSeam(a, mid, b)
    ensures b' == ReplaceAll(lb, rb, b, 0)
    ensures mid' == if lb == EndsBatch(a) && rb == StartsBatch(b) then SEPARATOR else mid
    ensures ReplaceAll(lb, rb, a + mid + b, 0) == a + mid' + b'
    ensures AtSeam(a, mid', b') && StartsBatch(b') == StartsBatch(b)
  {
    b' := ReplaceAll(lb, rb, b, 0);
    KeepsStart(lb, rb, b);
    if lb == EndsBatch(a) && rb == StartsBatch(b) {
      mid' := SEPARATOR;
      if mid != SEPARATOR { RuleHits(lb, rb, a, mid, b); } else { RuleMisses(lb, rb, a, mid, b); }
    } else {
      mid' := mid;
      RuleMisses(lb, rb, a, mid, b);
    }
  }

  /** Together the four rules turn the gap of a seam, whatever its kind, into one separator. */
  lemma {:induction false} MarkAtSeam(a: string, mid: string, b: string)
    requires AtSeam(a, mid, b) && Gap(mid)
    ensures MarkSeams(a + mid + b) == a + SEPARATOR + MarkSeams(b)
  {
    var m1, b1 := RuleAtSeam(false, false, a, mid, b);
    var m2, b2 := RuleAtSeam(true, true, a, m1, b1);
    var m3, b3 := RuleAtSeam(false, true, a, m2, b2);
    var m4, b4 := RuleAtSeam(true, false, a, m3, b3);
  }

  lemma {:induction false} NoMatches(lb: bool, rb: bool, s: string)
    requires NoSeam(s)
    ensures ReplaceAll(lb, rb, s, 0) == s
  {
    forall i | 0 <= i < |s| ensures MatchLength(lb, rb, s, i) == 0 {
      if MatchLength(lb, rb, s, i) > 0 {
        var p := i + |Left(lb)|;
        assert LeftEnd(s, p);
        assert SeamAt(s, p);
      }
    }
    Untouched(lb, rb, s, 0, |s|);
    assert s[0..|s|] == s;
  }

  lemma {:induction false} SplitShift(a: string, b: string, i: nat)
    requires i <= |b|
    ensures Split(a + b, |a| + i) == Split(b, i)
    decreases |b| - i
  {
    if i < |b| {
      var s := a + b;
      var next := if SeparatorAt(b, i) then i + 4 else i + 1;
      assert SeparatorAt(s, |a| + i) == SeparatorAt(b, i) && s[|a| + i] == b[i] && next <= |b|;
      hide SeparatorAt;
      SplitShift(a, b, next);
      var rest := Split(b, next);
      assert Split(b, i) == if SeparatorAt(b, i) then [""] + rest else [[b[i]] + rest[0]] + rest[1..];
    }
  }

  /** Up to n there is no separator: the text goes to the first piece. */
  lemma {:induction false} SplitCopies(s: string, i: nat, n: nat)
    requires i <= n <= |s| && forall k :: i <= k < n ==> !SeparatorAt(s, k)
    ensures var rest := Split(s, n); Split(s, i) == [s[i..n] + rest[0]] + rest[1..]
    decreases n - i
  {
    var rest := Split(s, n);
    if i < n {
      SplitCopies(s, i + 1, n);
      assert [s[i]] + (s[i + 1..n] + rest[0]) == s[i..n] + rest[0];
    } else {
      assert s[i..n] + rest[0] == rest[0];
      assert [rest[0]] + rest[1..] == rest;
    }
  }

  lemma {:induction false} SplitAtSeparator(a: string, b: string)
    requires NoSeparator(a) && LeftEnd(a, |a|)
    ensures Split(a + SEPARATOR + b, 0) == [a] + Split(b, 0)
  {
    var s := a + SEPARATOR + b;
    assert forall k :: 0 <= k < |a| ==> s[k] == a[k];
    forall k | 0 <= k < |a| ensures !SeparatorAt(s, k) {
      if SeparatorAt(s, k) {
        if k + 4 <= |a| { assert SeparatorAt(a, k); }
      }
    }
    SplitCopies(s, 0, |a|);
    assert s[|a|..|a| + 4] == SEPARATOR;
    assert SeparatorAt(s, |a|);
    SplitShift(a + SEPARATOR, b, 0);
    assert s[0..|a|] + "" == a;
  }

  /** The code's replace-and-split cuts exactly at the seams. */
  lemma {:induction false} DechunkIsPieces(s: string)
    requires NoSeparator(s)
    ensures Dechunk(s) == Pieces(s)
    decreases |s|
  {
    var p := FirstSeam(s, 0);
    if p == |s| + 1 {
      NoMatches(false, false, s);
      NoMatches(true, true, s);
      NoMatches(false, true, s);
      NoMatches(true, false, s);
      SplitCopies(s, 0, |s|);
      assert s[0..|s|] + "" == s;
    } else {
      var q := Resume(s, p);
      var a, mid, b := s[..p], s[p..q], s[q..];
      assert s == a + mid + b;
      CutAtSeam(s, p, q);
      MarkAtSeam(a, mid, b);
      SplitAtSeparator(a, MarkSeams(b));
      DechunkIsPieces(b);
    }
  }

  lemma {:induction false} CutAtSeam(s: string, p: nat, q: nat)
    requires NoSeparator(s) && p <= |s| && Seam(s, p, q) && forall i :: 0 <= i < p ==> !SeamAt(s, i)
    ensures AtSeam(s[..p], s[p..q], s[q..]) && Gap(s[p..q])
    ensures NoSeparator(s[..p]) && NoSeparator(s[q..])
  {
    var a, b := s[..p], s[q..];
    forall i | 0 <= i <= |a| ensures !SeamAt(a, i) && !SeparatorAt(a, i) {
      assert !SeamAt(s, i) || i == p;
      assert !SeparatorAt(s, i);
    }
    forall i | 0 <= i <= |b| ensures !SeparatorAt(b, i) {
      assert !SeparatorAt(s, q + i);
    }
  }
}
