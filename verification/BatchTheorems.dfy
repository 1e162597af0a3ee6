/** What a batch response does to the promises of its requests. */
module BatchTheorems {
  import opened Wrappers
  import opened JsonRpc
  import opened Batch

  lemma {:induction false} SortedEqual(x: seq<Option<real>>, y: seq<Option<real>>)
    requires Ascending(x) && Ascending(y) && NoNaN(x) && NoNaN(y) && multiset(x) == multiset(y)
    ensures x == y
  {
    assert |multiset(x)| == |multiset(y)|;
    if x != [] {
      Heads(x, y);
      SameLeast(x, y);
      RestSorted(x);
      RestSorted(y);
      RestOfBag(x);
      RestOfBag(y);
      assert multiset(x[1..]) == multiset(y[1..]);
      hide Ascending, NoNaN;
      SortedEqual(x[1..], y[1..]);
      assert x == [x[0]] + x[1..] && y == [y[0]] + y[1..];
    }
  }

  lemma {:induction false} Heads(x: seq<Option<real>>, y: seq<Option<real>>)
    requires multiset(x) == multiset(y) && x != [] && y != []
    ensures x[0] in y && y[0] in x
  {
    assert x[0] in multiset(x) && y[0] in multiset(y);
  }

  lemma {:induction false} RestSorted(x: seq<Option<real>>)
    requires Ascending(x) && NoNaN(x) && x != []
    ensures Ascending(x[1..]) && NoNaN(x[1..])
  {}

  lemma {:induction false} RestOfBag(x: seq<Option<real>>)
    requires x != []
    ensures multiset(x[1..]) == multiset(x) - multiset{x[0]}
  {
    assert x == [x[0]] + x[1..];
  }

  lemma {:induction false} SameLeast(x: seq<Option<real>>, y: seq<Option<real>>)
    requires Ascending(x) && Ascending(y) && NoNaN(x) && NoNaN(y)
    requires x != [] && y != [] && x[0] in y && y[0] in x
    ensures x[0] == y[0]
  {
    var i :| 0 <= i < |x| && x[i] == y[0];
    var j :| 0 <= j < |y| && y[j] == x[0];
    assert x[0].value <= x[i].value && y[0].value <= y[j].value;
  }

  /** For numeric ids the comparison of the sorted lists is equality of the ids as bags. */
  lemma {:induction false} MatchesIsSameBag(js: Engine, requestIds: seq<Id>, responseIds: seq<Id>)
    requires Sorts(js) && NoNaN(Numbers(js.read, requestIds)) && NoNaN(Numbers(js.read, responseIds))
    ensures Matches(js, requestIds, responseIds)
      <==> multiset(Numbers(js.read, requestIds)) == multiset(Numbers(js.read, responseIds))
  {
    var a, b := Numbers(js.read, requestIds), Numbers(js.read, responseIds);
    assert multiset(js.sort(a)) == multiset(a) && multiset(js.sort(b)) == multiset(b);
    if multiset(a) == multiset(b) {
      assert |multiset(a)| == |multiset(b)|;
      Permuted(a, js.sort(a));
      Permuted(b, js.sort(b));
      SortedEqual(js.sort(a), js.sort(b));
    }
  }

  lemma {:induction false} Permuted(a: seq<Option<real>>, s: seq<Option<real>>)
    requires NoNaN(a) && multiset(s) == multiset(a)
    ensures NoNaN(s)
  {
    forall i | 0 <= i < |s| ensures s[i].Some? {
      assert s[i] in multiset(s);
      assert s[i] in a;
    }
  }

  predicate Distinct(ids: seq<Id>) {
    forall i, j :: 0 <= i < j < |ids| ==> ids[i] != ids[j]
  }

  predicate AllNumbers(ids: seq<Id>) {
    forall i :: 0 <= i < |ids| ==> ids[i].NumberId?
  }

  lemma {:induction false} CountAtMostOne(read: string -> Option<real>, ids: seq<Id>, x: Option<real>)
    requires Distinct(ids) && AllNumbers(ids)
    ensures multiset(Numbers(read, ids))[x] <= 1
    decreases |ids|
  {
    if ids != [] {
      var n := Numbers(read, ids);
      assert n == [n[0]] + Numbers(read, ids[1..]);
      CountAtMostOne(read, ids[1..], x);
      forall k | 0 <= k < |ids| - 1 ensures Numbers(read, ids[1..])[k] != n[0] {
        assert ids[1..][k] == ids[k + 1];
      }
    }
  }

  lemma {:induction false} TwicePresent(s: seq<Option<real>>, i: nat, j: nat)
    requires i < j < |s| && s[i] == s[j]
    ensures multiset(s)[s[i]] >= 2
  {
    assert s == s[..i] + [s[i]] + s[i + 1..j] + [s[j]] + s[j + 1..];
  }

  /** A matching response has exactly one reply for each request. */
  lemma {:induction false} OneReplyEach(js: Engine, ids: seq<Id>, rs: seq<Reply>, i: nat) returns (k: nat)
    requires Sorts(js) && Distinct(ids) && AllNumbers(ids) && AllNumbers(ReplyIds(rs))
    requires Matches(js, ids, ReplyIds(rs))
    requires i < |ids|
    ensures k < |rs| && rs[k].id == ids[i] && forall j :: 0 <= j < |rs| && rs[j].id == ids[i] ==> j == k
  {
    hide NumberOf, Matches, Sorts, Numbers;
    AreNumbers(js.read, ids);
    AreNumbers(js.read, ReplyIds(rs));
    MatchesIsSameBag(js, ids, ReplyIds(rs));
    k := OnlyPlace(js.read, ids, ReplyIds(rs), i);
  }

  lemma {:induction false} OnlyPlace(read: string -> Option<real>, xs: seq<Id>, ys: seq<Id>, i: nat) returns (k: nat)
    requires Distinct(xs) && AllNumbers(xs) && AllNumbers(ys) && i < |xs|
    requires multiset(Numbers(read, xs)) == multiset(Numbers(read, ys))
    ensures k < |ys| && ys[k] == xs[i] && forall j :: 0 <= j < |ys| && ys[j] == xs[i] ==> j == k
  {
    hide NumberOf;
    var a, b := Numbers(read, xs), Numbers(read, ys);
    assert a[i] in multiset(b);
    k :| 0 <= k < |b| && b[k] == a[i];
    NumberFixesId(read, ys[k], xs[i]);
    CountAtMostOne(read, xs, a[i]);
    forall j | 0 <= j < |ys| && ys[j] == xs[i] ensures j == k {
      assert b[j] == a[i];
      if j < k { TwicePresent(b, j, k); } else if k < j { TwicePresent(b, k, j); }
    }
  }

  lemma {:induction false} NumberFixesId(read: string -> Option<real>, x: Id, y: Id)
    requires x.NumberId? && y.NumberId? && NumberOf(read, x) == NumberOf(read, y)
    ensures x == y
  {}

  lemma {:induction false} UntouchedBy(ids: seq<Id>, cells: seq<Cell>, rs: seq<Reply>, i: nat)
    requires |ids| == |cells| && i < |ids| && Distinct(ids)
    requires forall j :: 0 <= j < |rs| ==> rs[j].id != ids[i]
    ensures SettleAll(ids, cells, rs)[i] == cells[i]
    decreases |rs|
  {
    if rs != [] {
      assert forall j :: 0 <= j < |rs| - 1 ==> rs[1..][j] == rs[j + 1];
      UntouchedBy(ids, SettleOne(ids, cells, rs[0]), rs[1..], i);
    }
  }

  lemma {:induction false} SettledByItsReply(ids: seq<Id>, cells: seq<Cell>, rs: seq<Reply>, i: nat, k: nat)
    requires |ids| == |cells| && i < |ids| && Distinct(ids)
    requires k < |rs| && rs[k].id == ids[i] && forall j :: 0 <= j < |rs| && rs[j].id == ids[i] ==> j == k
    ensures SettleAll(ids, cells, rs)[i] == Settle(cells[i], rs[k])
    decreases |rs|
  {
    var next := SettleOne(ids, cells, rs[0]);
    assert forall j :: 0 <= j < |rs| - 1 ==> rs[1..][j] == rs[j + 1];
    if k == 0 {
      assert IndexOf(ids, rs[0].id) == i;
      UntouchedBy(ids, next, rs[1..], i);
    } else {
      SettledByItsReply(ids, next, rs[1..], i, k - 1);
    }
  }

  /**
   * Batch settlement. With distinct numeric ids and a matching response, in whatever order it comes, each
   * pending promise is settled exactly by the one reply with its id: fulfilled with its result, rejected with
   * its error, and left pending just when the reply is neither.
   */
  lemma {:induction false} EachPromiseByItsOwnReply(js: Engine, ids: seq<Id>, cells: seq<Cell>, rs: seq<Reply>,
      i: nat)
    returns (k: nat)
    requires Sorts(js) && Distinct(ids) && AllNumbers(ids) && AllNumbers(ReplyIds(rs))
    requires Matches(js, ids, ReplyIds(rs))
    requires |cells| == |ids| && i < |ids| && cells[i] == Cell(Pending, None)
    ensures k < |rs| && rs[k].id == ids[i] && forall j :: 0 <= j < |rs| && rs[j].id == ids[i] ==> j == k
    ensures var c := SettleAll(ids, cells, rs)[i];
            && (ReplyWithResult(rs[k]) ==> c == Cell(Fulfilled, Some(Value(rs[k].result))))
            && (!ReplyWithResult(rs[k]) && ReplyWithError(rs[k]) ==>
                  c == Cell(Rejected, Some(Failure(ServerError(rs[k].error)))))
            && (c.settled.None? <==> !ValidReply(rs[k]))
  {
    k := OneReplyEach(js, ids, rs, i);
    SettledByItsReply(ids, cells, rs, i, k);
  }

  predicate Answered(rs: seq<Reply>, id: Id) {
    exists k :: 0 <= k < |rs| && rs[k].id == id
  }

  predicate AllAnswered(ids: seq<Id>, rs: seq<Reply>) {
    forall i :: 0 <= i < |ids| ==> Answered(rs, ids[i])
  }

  lemma {:induction false} SubBagOfSameSize(a: multiset<Option<real>>, b: multiset<Option<real>>)
    requires a <= b && |a| == |b|
    ensures a == b
  {
    assert b == a + (b - a);
  }

  /**
   * With distinct numeric ids, a response of the right size answers every request exactly when it passes the
   * comparison and all its ids are numbers. (The comparison converts ids, the lookup of promises does not.)
   */
  lemma {:induction false} MatchesIffAllAnswered(js: Engine, ids: seq<Id>, rs: seq<Reply>)
    requires Sorts(js) && Distinct(ids) && AllNumbers(ids)
    ensures Matches(js, ids, ReplyIds(rs)) && AllNumbers(ReplyIds(rs)) <==> |rs| == |ids| && AllAnswered(ids, rs)
  {
    hide Matches, Sorts;
    SameSize(js, ids, ReplyIds(rs));
    if Matches(js, ids, ReplyIds(rs)) && AllNumbers(ReplyIds(rs)) {
      forall i | 0 <= i < |ids| ensures Answered(rs, ids[i]) {
        var k := OneReplyEach(js, ids, rs, i);
      }
    }
    if |rs| == |ids| && AllAnswered(ids, rs) {
      SameBagIfAnswered(js.read, ids, rs);
      NumbersIfAnswered(js.read, ids, rs);
      AreNumbers(js.read, ids);
      AreNumbers(js.read, ReplyIds(rs));
      MatchesIsSameBag(js, ids, ReplyIds(rs));
    }
  }

  lemma {:induction false} SameSize(js: Engine, xs: seq<Id>, ys: seq<Id>)
    ensures Matches(js, xs, ys) ==> |xs| == |ys|
  {}

  lemma {:induction false} AreNumbers(read: string -> Option<real>, ids: seq<Id>)
    requires AllNumbers(ids)
    ensures NoNaN(Numbers(read, ids))
  {}

  lemma {:induction false} NumbersIfAnswered(read: string -> Option<real>, ids: seq<Id>, rs: seq<Reply>)
    requires Distinct(ids) && AllNumbers(ids) && |rs| == |ids| && AllAnswered(ids, rs)
    ensures AllNumbers(ReplyIds(rs))
  {
    var a, b := Numbers(read, ids), Numbers(read, ReplyIds(rs));
    SameBagIfAnswered(read, ids, rs);
    forall k | 0 <= k < |rs| ensures rs[k].id.NumberId? {
      assert b[k] in multiset(a);
      var i :| 0 <= i < |a| && a[i] == b[k];
      assert Answered(rs, ids[i]);
      var j :| 0 <= j < |rs| && rs[j].id == ids[i];
      assert b[j] == b[k];
      CountAtMostOne(read, ids, b[k]);
      if j < k { TwicePresent(b, j, k); } else if k < j { TwicePresent(b, k, j); }
    }
  }

  /** A response that passes answers every request exactly if each of its ids is a number. */
  lemma {:induction false} PassingAnswersIffNumbers(js: Engine, ids: seq<Id>, rs: seq<Reply>)
    requires Sorts(js) && Distinct(ids) && AllNumbers(ids) && Matches(js, ids, ReplyIds(rs))
    ensures AllAnswered(ids, rs) <==> AllNumbers(ReplyIds(rs))
  {
    MatchesIffAllAnswered(js, ids, rs);
  }

  lemma {:induction false} SameBagIfAnswered(read: string -> Option<real>, ids: seq<Id>, rs: seq<Reply>)
    requires Distinct(ids) && AllNumbers(ids) && |rs| == |ids| && AllAnswered(ids, rs)
    ensures multiset(Numbers(read, ids)) == multiset(Numbers(read, ReplyIds(rs)))
  {
    var a, b := Numbers(read, ids), Numbers(read, ReplyIds(rs));
    forall x ensures multiset(a)[x] <= multiset(b)[x] {
      CountAtMostOne(read, ids, x);
      if x in a { AnsweredInBag(read, ids, rs, x); }
    }
    SubBagOfSameSize(multiset(a), multiset(b));
  }

  lemma {:induction false} AnsweredInBag(read: string -> Option<real>, ids: seq<Id>, rs: seq<Reply>, x: Option<real>)
    requires x in Numbers(read, ids) && AllAnswered(ids, rs)
    ensures multiset(Numbers(read, ReplyIds(rs)))[x] >= 1
  {
    var a, b := Numbers(read, ids), Numbers(read, ReplyIds(rs));
    var i :| 0 <= i < |a| && a[i] == x;
    assert Answered(rs, ids[i]);
    var k :| 0 <= k < |rs| && rs[k].id == ids[i];
    assert b[k] == x;
    assert x in b;
  }

  /** Whatever the ids are, a pending promise is settled exactly if some valid reply carries its very id. */
  lemma {:induction false} SettledIffAnswered(ids: seq<Id>, cells: seq<Cell>, rs: seq<Reply>, i: nat)
    requires |ids| == |cells| && i < |ids| && Distinct(ids)
    ensures SettleAll(ids, cells, rs)[i].settled.Some?
      <==> cells[i].settled.Some? || exists k :: 0 <= k < |rs| && rs[k].id == ids[i] && ValidReply(rs[k])
    decreases |rs|
  {
    if rs != [] {
      SettledIffAnswered(ids, SettleOne(ids, cells, rs[0]), rs[1..], i);
      assert forall j :: 0 <= j < |rs| - 1 ==> rs[1..][j] == rs[j + 1];
      assert rs[0].id == ids[i] ==> IndexOf(ids, rs[0].id) == i;
      assert (exists k :: 0 <= k < |rs| && rs[k].id == ids[i] && ValidReply(rs[k])) <==>
        (rs[0].id == ids[i] && ValidReply(rs[0])) ||
        (exists k :: 0 <= k < |rs| - 1 && rs[1..][k].id == ids[i] && ValidReply(rs[1..][k]));
    }
  }

  /**
   * One reply to request i, by its members: with a result, null or not, and no error or a null one, it fulfills the
   * promise; with an error and no result or a null one, it rejects it; what does not count leaves it as it is.
   */
  lemma {:induction false} ReplySettles(ids: seq<Id>, cells: seq<Cell>, r: Reply, i: nat)
    requires |ids| == |cells| && i < |ids| && Distinct(ids) && r.id == ids[i] && cells[i] == Cell(Pending, None)
    ensures var c := SettleAll(ids, cells, [r])[i];
      if !Counts(r) then c == Cell(Pending, None)
      else if r.result.Absent? || (r.result.Nullish? && r.error.Filled?) then
        c == Cell(Rejected, Some(Failure(ServerError(r.error))))
      else c == Cell(Fulfilled, Some(Value(r.result)))
    ensures forall j :: 0 <= j < |ids| && j != i ==> SettleAll(ids, cells, [r])[j] == cells[j]
  {
    CountsIsValid(r);
    assert IndexOf(ids, r.id) == i;
    assert [r][1..] == [] && SettleAll(ids, cells, [r]) == SettleOne(ids, cells, r);
  }

  /** A batch answered with null results: every promise is fulfilled with null. */
  lemma {:induction false} NullResultsFulfill(js: Engine, ids: seq<Id>, cells: seq<Cell>, rs: seq<Reply>, i: nat)
    requires Sorts(js) && Distinct(ids) && AllNumbers(ids) && AllNumbers(ReplyIds(rs))
    requires Matches(js, ids, ReplyIds(rs)) && |cells| == |ids| && i < |ids| && cells[i] == Cell(Pending, None)
    requires forall k :: 0 <= k < |rs| ==> rs[k] == Reply(true, rs[k].id, Nullish, Absent, Absent, Absent)
    ensures SettleAll(ids, cells, rs)[i] == Cell(Fulfilled, Some(Value(Nullish)))
  {
    var k := OneReplyEach(js, ids, rs, i);
    SettledByItsReply(ids, cells, rs, i, k);
    assert ReplyIds(rs)[k] == rs[k].id;
  }

  /** The id null counts as 0 in the comparison, and is lost. */
  lemma {:induction false} NullIdIsLost(js: Engine, r: Reply)
    requires r.id == NullId
    ensures Matches(js, [NumberId(0)], ReplyIds([r]))
    ensures SettleAll([NumberId(0)], [Cell(Pending, None)], [r]) == [Cell(Pending, None)]
  {
    assert Numbers(js.read, ReplyIds([r])) == [Some(0.0)] == Numbers(js.read, [NumberId(0)]);
    assert SettleOne([NumberId(0)], [Cell(Pending, None)], r) == [Cell(Pending, None)];
  }

  /** A response that does not match rejects every pending promise. */
  lemma {:induction false} MismatchRejects(cells: seq<Cell>, i: nat)
    requires i < |cells| && cells[i] == Cell(Pending, None)
    ensures AbortCells(cells, INVALID)[i] == Cell(Rejected, Some(Failure(Aborted("Invalid batch response"))))
  {}

  /** A reply to request 1 with the id "1" passes, and leaves the promise pending. */
  lemma {:induction false} TextIdIsLost(js: Engine, r: Reply)
    requires r.id == TextId("1") && js.read("1") == Some(1.0)
    ensures Matches(js, [NumberId(1)], ReplyIds([r]))
    ensures SettleAll([NumberId(1)], [Cell(Pending, None)], [r]) == [Cell(Pending, None)]
  {
    assert Numbers(js.read, ReplyIds([r])) == [Some(1.0)] == Numbers(js.read, [NumberId(1)]);
    assert SettleOne([NumberId(1)], [Cell(Pending, None)], r) == [Cell(Pending, None)];
  }

  lemma {:induction false} AllNaN(read: string -> Option<real>, ids: seq<Id>)
    requires forall i :: 0 <= i < |ids| ==> NumberOf(read, ids[i]).None?
    ensures Numbers(read, ids) == seq(|ids|, i => None)
  {}

  lemma {:induction false} NoNumberInBag(a: seq<Option<real>>, b: seq<Option<real>>)
    requires multiset(b) == multiset(a) && forall k :: 0 <= k < |a| ==> a[k].None?
    ensures forall k :: 0 <= k < |b| ==> b[k].None?
  {
    forall k | 0 <= k < |b| ensures b[k].None? { assert b[k] in multiset(a); }
  }

  lemma {:induction false} SortedBag(js: Engine, x: seq<Option<real>>)
    requires Sorts(js)
    ensures multiset(js.sort(x)) == multiset(x)
  {}

  /** Request ids that are no numbers, such as UUIDs, pass with any reply ids that are none. */
  lemma {:induction false} UuidIdsAreNotCompared(js: Engine, ids: seq<Id>, rs: seq<Reply>)
    requires Sorts(js) && forall k :: 0 <= k < |ids| ==> NumberOf(js.read, ids[k]).None?
    ensures Matches(js, ids, ReplyIds(rs))
      <==> |rs| == |ids| && forall k :: 0 <= k < |rs| ==> NumberOf(js.read, rs[k].id).None?
  {
    var a, b := Numbers(js.read, ids), Numbers(js.read, ReplyIds(rs));
    AllNaN(js.read, ids);
    SortedBag(js, a);
    SortedBag(js, b);
    hide Sorts, NumberOf;
    if Matches(js, ids, ReplyIds(rs)) {
      NoNumberInBag(a, b);
    } else if |rs| == |ids| && forall k :: 0 <= k < |rs| ==> NumberOf(js.read, rs[k].id).None? {
      AllNaN(js.read, ReplyIds(rs));
    }
  }

  /**
   * A batch that timed out and is answered after all: every promise stays rejected by the timeout, but its state
   * field goes with the late reply.
   */
  lemma {:induction false} LateAnswer(js: Engine, ids: seq<Id>, cells: seq<Cell>, rs: seq<Reply>, i: nat,
      message: string)
    returns (k: nat)
    requires Sorts(js) && Distinct(ids) && AllNumbers(ids) && AllNumbers(ReplyIds(rs))
    requires Matches(js, ids, ReplyIds(rs))
    requires |cells| == |ids| && i < |ids| && cells[i] == Cell(Pending, None)
    ensures k < |rs| && rs[k].id == ids[i]
    ensures var late := SettleAll(ids, AbortCells(cells, message), rs)[i];
      && late.settled == Some(Failure(Aborted(message)))
      && (late.state == Fulfilled <==> ReplyWithResult(rs[k]))
  {
    k := OneReplyEach(js, ids, rs, i);
    SettledByItsReply(ids, AbortCells(cells, message), rs, i, k);
  }
}
