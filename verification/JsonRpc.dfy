/** JSON-RPC responses and the classifiers the socket and the batch protocol branch on. */
module JsonRpc {

  /** The id of a request or response: missing, null, a number, or a string. */
  datatype Id = NoId | NullId | NumberId(n: int) | TextId(s: string) {
    predicate Proper() {
      NumberId? || TextId?
    }

    /** JavaScript truthiness. */
    predicate Truthy() {
      match this
      case NoId => false
      case NullId => false
      case NumberId(n) => n != 0
      case TextId(s) => s != ""
    }
  }

  /** A member of a response object: not there, undefined or null, or any other value. */
  datatype Member = Absent | Nullish | Filled(value: string) {
    predicate IsNullish() {
      !Filled?
    }
  }

  datatype Reply = Reply(version2: bool, id: Id, result: Member, error: Member, params: Member, rpcMethod: Member)

  datatype Response = Single(reply: Reply) | Many(replies: seq<Reply>)

  predicate ReplyWithResult(r: Reply) {
    r.version2 && !r.result.Absent? && r.error.IsNullish() && r.id.Proper()
  }

  predicate ReplyWithError(r: Reply) {
    r.version2 && r.result.IsNullish() && !r.error.Absent? && r.id.Proper()
  }

  predicate ValidReply(r: Reply) {
    ReplyWithResult(r) || ReplyWithError(r)
  }

  predicate IsResponseWithResult(r: Response) {
    r.Single? && ReplyWithResult(r.reply)
  }

  predicate IsResponseWithError(r: Response) {
    r.Single? && ReplyWithError(r.reply)
  }

  predicate IsBatchResponse(r: Response) {
    r.Many? && r.replies != [] && forall i :: 0 <= i < |r.replies| ==> ValidReply(r.replies[i])
  }

  predicate IsResponseWithNotification(r: Response) {
    r.Single? && r.reply.version2 && !r.reply.params.IsNullish() && !r.reply.rpcMethod.IsNullish()
  }

  predicate EndsWith(s: string, suffix: string) {
    |suffix| <= |s| && s[|s| - |suffix|..] == suffix
  }

  predicate IsSubscriptionNotification(r: Response) {
    IsResponseWithNotification(r) && EndsWith(r.reply.rpcMethod.value, "_subscription")
  }

  /** What resolves a waiting request. */
  predicate Recognised(r: Response) {
    IsBatchResponse(r) || IsResponseWithResult(r) || IsResponseWithError(r)
  }

  /** The key a response is looked up by: its id, or the first id of a batch. */
  function ResponseKey(r: Response): Id {
    if IsBatchResponse(r) then r.replies[0].id
    else if r.Single? then r.reply.id
    else NoId
  }

  // The classifiers by the members of a reply.

  /**
   * A reply counts if it is of version 2.0, has a number or a text for an id, and, of result and error: one is there
   * (null counts) and the other one is not, or both are there and one of them is null.
   */
  predicate Counts(r: Reply) {
    && r.version2 && r.id != NoId && r.id != NullId
    && match (r.result, r.error)
       case (Absent, Absent) => false
       case (Absent, _) => true
       case (_, Absent) => true
       case (Nullish, _) => true
       case (_, Nullish) => true
       case (Filled(_), Filled(_)) => false
  }

  /** A message of version 2.0 with parameters, whose method ends with `_subscription`. */
  predicate Notifies(r: Reply) {
    && r.version2 && r.params.Filled? && r.rpcMethod.Filled?
    && var m := r.rpcMethod.value; |m| >= 13 && m[|m| - 13..] == "_subscription"
  }

  lemma {:induction false} CountsIsValid(r: Reply)
    ensures Counts(r) <==> ValidReply(r)
  {}

  lemma {:induction false} NotifiesIsNotification(r: Reply)
    ensures Notifies(r) <==> IsSubscriptionNotification(Single(r))
  {}
}
