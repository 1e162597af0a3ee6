/** Requests with ids of both kinds: when the comparison of a batch may turn a correct response down. */
module BatchMixedIds {
  import opened Wrappers
  import opened JsonRpc
  import opened Batch
  import opened BatchTheorems

  type Reader = string -> Option<real>

  /** Any reordering of the request ids passes, however the engine sorts lists with NaN in them. */
  ghost predicate CorrectResponsesPass(read: Reader, ids: seq<Id>) {
    forall js: Engine, rs: seq<Reply> ::
      js.read == read && Sorts(js) && multiset(ReplyIds(rs)) == multiset(ids) ==> Matches(js, ids, ReplyIds(rs))
  }

  predicate AllNumeric(read: Reader, ids: seq<Id>) {
    forall i :: 0 <= i < |ids| ==> NumberOf(read, ids[i]).Some?
  }

  predicate NoneNumeric(read: Reader, ids: seq<Id>) {
    forall i :: 0 <= i < |ids| ==> NumberOf(read, ids[i]).None?
  }

  /** Correct responses are sure to pass exactly if the request ids are all numbers or all none. */
  lemma {:induction false} MixedIdsMayFail(read: Reader, ids: seq<Id>)
    ensures CorrectResponsesPass(read, ids) <==> AllNumeric(read, ids) || NoneNumeric(read, ids)
  {
    if AllNumeric(read, ids) || NoneNumeric(read, ids) {
      forall js: Engine, rs: seq<Reply>
        | js.read == read && Sorts(js) && multiset(ReplyIds(rs)) == multiset(ids)
        ensures Matches(js, ids, ReplyIds(rs))
      {
        ReorderingPasses(js, ids, rs);
      }
    } else {
      var i :| 0 <= i < |ids| && NumberOf(read, ids[i]).None?;
      var j :| 0 <= j < |ids| && NumberOf(read, ids[j]).Some?;
      SwapFails(read, ids, i, j);
    }
  }

  // Reorderings.

  lemma {:induction false} ReorderingPasses(js: Engine, ids: seq<Id>, rs: seq<Reply>)
    requires Sorts(js) && multiset(ReplyIds(rs)) == multiset(ids)
    requires AllNumeric(js.read, ids) || NoneNumeric(js.read, ids)
    ensures Matches(js, ids, ReplyIds(rs))
  {
    hide Matches, Sorts, NumberOf;
    var xs := ReplyIds(rs);
    SameKind(js.read, ids, xs);
    if AllNumeric(js.read, ids) {
      SameBagOfNumbers(js.read, ids, xs);
      MatchesIsSameBag(js, ids, xs);
    } else {
      UuidIdsAreNotCompared(js, ids, rs);
    }
  }

  lemma {:induction false} SameKind(read: Reader, xs: seq<Id>, ys: seq<Id>)
    requires multiset(xs) == multiset(ys)
    ensures |xs| == |ys|
    ensures AllNumeric(read, xs) ==> AllNumeric(read, ys) && NoNaN(Numbers(read, xs)) && NoNaN(Numbers(read, ys))
    ensures NoneNumeric(read, xs) ==> NoneNumeric(read, ys)
  {
    hide NumberOf;
    assert |multiset(xs)| == |multiset(ys)|;
    forall k | 0 <= k < |ys| ensures exists i :: 0 <= i < |xs| && xs[i] == ys[k] {
      assert ys[k] in multiset(xs);
    }
  }

  lemma {:induction false} SameBagOfNumbers(read: Reader, xs: seq<Id>, ys: seq<Id>)
    requires multiset(xs) == multiset(ys)
    ensures multiset(Numbers(read, xs)) == multiset(Numbers(read, ys))
    decreases |xs|
  {
    hide Numbers, NumberOf, Without;
    assert |multiset(xs)| == |multiset(ys)|;
    if xs != [] {
      var k := PlaceOf(ys, xs[0], xs);
      BagWithout(xs, 0);
      BagWithout(ys, k);
      NumbersWithout(read, xs, 0);
      NumbersWithout(read, ys, k);
      SameBagOfNumbers(read, Without(xs, 0), Without(ys, k));
    } else {
      assert ys == [];
    }
  }

  lemma {:induction false} PlaceOf(ys: seq<Id>, x: Id, xs: seq<Id>) returns (k: nat)
    requires multiset(xs) == multiset(ys) && x in xs
    ensures k < |ys| && ys[k] == x
  {
    assert x in multiset(ys);
    k :| 0 <= k < |ys| && ys[k] == x;
  }

  function Without(xs: seq<Id>, k: nat): (r: seq<Id>)
    requires k < |xs|
    ensures |r| == |xs| - 1
  {
    xs[..k] + xs[k + 1..]
  }

  lemma {:induction false} BagWithout(xs: seq<Id>, k: nat)
    requires k < |xs|
    ensures multiset(Without(xs, k)) == multiset(xs) - multiset{xs[k]}
  {
    assert xs == xs[..k] + [xs[k]] + xs[k + 1..];
  }

  lemma {:induction false} NumbersWithout(read: Reader, xs: seq<Id>, k: nat)
    requires k < |xs|
    ensures multiset(Numbers(read, xs)) == multiset(Numbers(read, Without(xs, k))) + multiset{NumberOf(read, xs[k])}
  {
    var l, x, r := xs[..k], xs[k], xs[k + 1..];
    assert xs == l + ([x] + r) && Numbers(read, [x]) == [NumberOf(read, x)];
    hide Numbers;
    NumbersJoin(read, l, r);
    NumbersJoin(read, l, [x] + r);
    NumbersJoin(read, [x], r);
  }

  lemma {:induction false} NumbersJoin(read: Reader, xs: seq<Id>, ys: seq<Id>)
    ensures Numbers(read, xs + ys) == Numbers(read, xs) + Numbers(read, ys)
  {}

  // An engine that leaves lists with NaN as they are.

  function Lazy(read: Reader): Engine {
    Engine(s => if NoNaN(s) then InsertionSort(s) else s, read)
  }

  function Insert(x: Option<real>, s: seq<Option<real>>): (r: seq<Option<real>>)
    requires x.Some? && NoNaN(s)
    ensures NoNaN(r) && multiset(r) == multiset(s) + multiset{x}
  {
    if s == [] || x.value <= s[0].value then [x] + s
    else
      assert s == [s[0]] + s[1..];
      [s[0]] + Insert(x, s[1..])
  }

  function InsertionSort(s: seq<Option<real>>): (r: seq<Option<real>>)
    requires NoNaN(s)
    ensures NoNaN(r) && multiset(r) == multiset(s) && Ascending(r)
  {
    if s == [] then []
    else
      assert s == [s[0]] + s[1..];
      InsertKeepsOrder(s[0], InsertionSort(s[1..]));
      Insert(s[0], InsertionSort(s[1..]))
  }

  lemma {:induction false} InsertKeepsOrder(x: Option<real>, s: seq<Option<real>>)
    requires x.Some? && NoNaN(s) && Ascending(s)
    ensures Ascending(Insert(x, s))
    decreases |s|
  {
    if s != [] && x.value > s[0].value {
      var t := Insert(x, s[1..]);
      InsertKeepsOrder(x, s[1..]);
      forall i | 0 <= i < |t| ensures s[0].value <= t[i].value {
        assert t[i] in multiset(t);
        assert t[i] == x || t[i] in s[1..];
      }
      hide Insert;
      var r := [s[0]] + t;
      assert forall i :: 0 < i < |r| ==> r[i] == t[i - 1];
      assert Insert(x, s) == r;
    }
  }

  /** Two replies swapped, one with a number for an id and one with none. */
  lemma {:induction false} SwapFails(read: Reader, ids: seq<Id>, i: nat, j: nat)
    requires i < |ids| && j < |ids| && NumberOf(read, ids[i]).None? && NumberOf(read, ids[j]).Some?
    ensures !CorrectResponsesPass(read, ids)
  {
    hide Sorts, NumberOf, Lazy, Replies;
    var js, swapped := Lazy(read), ids[i := ids[j]][j := ids[i]];
    SwapIsPermutation(ids, i, j);
    LazySorts(read);
    LazyKeeps(read, ids, i);
    LazyKeeps(read, swapped, j);
    assert Numbers(read, ids)[i] != Numbers(read, swapped)[i];
    assert !Matches(js, ids, ReplyIds(Replies(swapped)));
  }

  /** Some replies with the given ids. */
  function Replies(ids: seq<Id>): (rs: seq<Reply>)
    ensures ReplyIds(rs) == ids
  {
    if ids == [] then [] else [Reply(true, ids[0], Filled(""), Absent, Absent, Absent)] + Replies(ids[1..])
  }

  lemma {:induction false} LazySorts(read: Reader)
    ensures Sorts(Lazy(read)) && Lazy(read).read == read
  {}

  lemma {:induction false} LazyKeeps(read: Reader, ids: seq<Id>, i: nat)
    requires i < |ids| && NumberOf(read, ids[i]).None?
    ensures Lazy(read).sort(Numbers(read, ids)) == Numbers(read, ids)
  {
    hide NumberOf;
    assert Numbers(read, ids)[i].None?;
  }

  lemma {:induction false} SwapIsPermutation(ids: seq<Id>, i: nat, j: nat)
    requires i < |ids| && j < |ids|
    ensures multiset(ids[i := ids[j]][j := ids[i]]) == multiset(ids)
  {}
}
