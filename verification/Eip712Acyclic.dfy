/** A type table has a rank, as the encoder needs it, exactly if no struct contains itself. */
module Eip712Acyclic {
  import opened Eip712Types

  /** A struct that contains itself, over however many others. */
  predicate IsCycle(types: Table, p: seq<string>) {
    |p| > 1 && IsPath(types, p) && p[0] == p[|p| - 1]
  }

  ghost predicate HasRank(types: Table) {
    exists rank: string -> nat :: Layered(types, rank)
  }

  ghost predicate HasCycle(types: Table) {
    exists p :: IsCycle(types, p)
  }

  lemma {:induction false} RankIffNoCycle(types: Table)
    ensures HasRank(types) <==> !HasCycle(types)
  {
    if HasRank(types) && HasCycle(types) {
      var rank: string -> nat :| Layered(types, rank);
      var p :| IsCycle(types, p);
      PathGoesDown(types, rank, p);
    }
    if !HasCycle(types) {
      var n := |types.Keys|;
      var rank: string -> nat := a => Longest(types, a, n);
      forall a, b | Edge(types, a, b) ensures rank(b) < rank(a) { EdgeGoesDown(types, a, b); }
      assert Layered(types, rank);
    }
  }

  lemma {:induction false} PathGoesDown(types: Table, rank: string -> nat, p: seq<string>)
    requires Layered(types, rank) && IsPath(types, p) && |p| > 1
    ensures rank(p[|p| - 1]) < rank(p[0])
    decreases |p|
  {
    assert Edge(types, p[0], p[1]);
    if |p| > 2 {
      PathTail(types, p);
      PathGoesDown(types, rank, p[1..]);
    }
  }

  lemma {:induction false} PathTail(types: Table, p: seq<string>)
    requires IsPath(types, p) && |p| > 1
    ensures IsPath(types, p[1..])
  {
    assert Edge(types, p[0], p[1]);
    forall i | 0 <= i < |p| - 2 ensures Edge(types, p[1..][i], p[1..][i + 1]) {
      assert Edge(types, p[i + 1], p[i + 2]);
    }
  }

  // The rank: the length of the longest path of structs, each containing the next.

  ghost predicate PathOf(types: Table, a: string, k: nat) {
    exists p :: IsPath(types, p) && p[0] == a && |p| == k
  }

  ghost function Longest(types: Table, a: string, n: nat): (k: nat)
    ensures k <= n && (k > 0 ==> PathOf(types, a, k)) && forall m: nat :: m <= n && PathOf(types, a, m) ==> m <= k
  {
    if n == 0 || PathOf(types, a, n) then n else Longest(types, a, n - 1)
  }

  lemma {:induction false} EdgeGoesDown(types: Table, a: string, b: string)
    requires !HasCycle(types) && Edge(types, a, b)
    ensures Longest(types, b, |types.Keys|) < Longest(types, a, |types.Keys|)
  {
    var n := |types.Keys|;
    assert IsPath(types, [b]);
    PathsAreShort(types, [b]);
    var k := Longest(types, b, n);
    assert |[b]| == 1 && PathOf(types, b, 1);
    assert k >= 1 && PathOf(types, b, k);
    var p :| IsPath(types, p) && p[0] == b && |p| == k;
    var q := [a] + p;
    forall i | 0 <= i < |q| - 1 ensures Edge(types, q[i], q[i + 1]) {
      if i > 0 { assert Edge(types, p[i - 1], p[i]); }
    }
    assert IsPath(types, q) && |q| == k + 1;
    PathsAreShort(types, q);
    assert PathOf(types, a, k + 1);
  }

  /** Without a cycle no struct comes twice on a path, so no path is longer than the table. */
  lemma {:induction false} PathsAreShort(types: Table, p: seq<string>)
    requires !HasCycle(types) && IsPath(types, p)
    ensures |p| <= |types.Keys|
  {
    forall i | 0 <= i < |p| ensures p[i] in types.Keys {
      if i > 0 { assert Edge(types, p[i - 1], p[i]); }
    }
    forall i, j | 0 <= i < j < |p| ensures p[i] != p[j] {
      TwiceIsCycle(types, p, i, j);
    }
    Pigeonhole(p, types.Keys);
  }

  lemma {:induction false} TwiceIsCycle(types: Table, p: seq<string>, i: nat, j: nat)
    requires IsPath(types, p) && i < j < |p|
    ensures p[i] == p[j] ==> HasCycle(types)
  {
    var c := p[i..j + 1];
    assert Edge(types, p[i], p[i + 1]);
    forall k | 0 <= k < |c| - 1 ensures Edge(types, c[k], c[k + 1]) { assert Edge(types, p[i + k], p[i + k + 1]); }
    assert p[i] == p[j] ==> IsCycle(types, c);
  }

  lemma {:induction false} Pigeonhole(p: seq<string>, s: set<string>)
    requires NoDuplicates(p) && forall i :: 0 <= i < |p| ==> p[i] in s
    ensures |p| <= |s|
    decreases |p|
  {
    if p != [] { Pigeonhole(p[1..], s - {p[0]}); }
  }
}
