/** The life of security requests across the handlers, as a trace of events.
    A dispatch returns a status and finalizes the request itself unless that
    status is STATUS_PENDING (DispatchQuerySecurity, DispatchSetSecurity); a
    pending request is finalized later, once, by the completion handler, which
    runs only for a request the pending registry has just given back
    (CompleteQuerySecurity). The lemmas show that every request is finalized at
    most once, and exactly once when it is no longer pending. */
module Lifecycle {
  import opened Kernel

  type RequestId = nat

  datatype Event =
    | Dispatched(id: RequestId, status: NTSTATUS)  // a dispatch routine returned `status`
    | Completed(id: RequestId)                     // the completion handler ran for `id`

  function Init(t: seq<Event>): seq<Event>
    requires t != []
  {
    t[..|t| - 1]
  }

  function Last(t: seq<Event>): Event
    requires t != []
  {
    t[|t| - 1]
  }

  /** How many times event `e` hands request `id` to IoCompleteRequest. */
  function Finalizes(e: Event, id: RequestId): nat {
    match e
    case Dispatched(i, s) => if i == id && s != STATUS_PENDING then 1 else 0
    case Completed(i) => if i == id then 1 else 0
  }

  /** How many times request `id` has been finalized along `t`. */
  function Completions(t: seq<Event>, id: RequestId): nat
    decreases |t|
  {
    if t == [] then 0 else Completions(Init(t), id) + Finalizes(Last(t), id)
  }

  predicate WasDispatched(t: seq<Event>, id: RequestId)
    decreases |t|
  {
    t != [] && ((Last(t).Dispatched? && Last(t).id == id) || WasDispatched(Init(t), id))
  }

  /** Whether request `id` sits in the pending registry after `t`. */
  predicate IsPending(t: seq<Event>, id: RequestId)
    decreases |t|
  {
    if t == [] then false
    else if Last(t).id != id then IsPending(Init(t), id)
    else match Last(t)
      case Dispatched(_, s) => s == STATUS_PENDING
      case Completed(_) => false
  }

  /** Each request is dispatched once, and the completion handler runs only for a
      request the registry holds. */
  predicate Allowed(t: seq<Event>, e: Event) {
    match e
    case Dispatched(i, _) => !WasDispatched(t, i)
    case Completed(i) => IsPending(t, i)
  }

  predicate ValidTrace(t: seq<Event>)
    decreases |t|
  {
    t == [] || (ValidTrace(Init(t)) && Allowed(Init(t), Last(t)))
  }

  /** An allowed event appended to an allowed trace gives an allowed trace. */
  lemma Extend(t: seq<Event>, e: Event)
    requires ValidTrace(t) && Allowed(t, e)
    ensures ValidTrace(t + [e]) && Init(t + [e]) == t && Last(t + [e]) == e
  {
    assert Init(t + [e]) == t;
  }

  /** A dispatched request is either pending or finalized once; an undispatched
      one is neither. */
  lemma {:induction false} CompletionBalance(t: seq<Event>, id: RequestId)
    requires ValidTrace(t)
    ensures Completions(t, id) + (if IsPending(t, id) then 1 else 0) ==
            (if WasDispatched(t, id) then 1 else 0)
    decreases |t|
  {
    if t != [] {
      CompletionBalance(Init(t), id);
    }
  }

  /** No request is finalized twice. */
  lemma {:induction false} FinalizedAtMostOnce(t: seq<Event>, id: RequestId)
    requires ValidTrace(t)
    ensures Completions(t, id) <= 1
  {
    CompletionBalance(t, id);
  }

  /** No dispatched request that has left the registry is lost. */
  lemma {:induction false} FinalizedOnceUnlessPending(t: seq<Event>, id: RequestId)
    requires ValidTrace(t) && WasDispatched(t, id)
    ensures IsPending(t, id) <==> Completions(t, id) == 0
    ensures !IsPending(t, id) <==> Completions(t, id) == 1
  {
    CompletionBalance(t, id);
  }

  /** The completion handler may run for a request only after its dispatch
      returned STATUS_PENDING, and then only once. */
  lemma {:induction false} CompletedOnlyAfterPending(t: seq<Event>, id: RequestId)
    requires ValidTrace(t + [Completed(id)])
    ensures WasDispatched(t, id) && Completions(t, id) == 0
    ensures !ValidTrace(t + [Completed(id), Completed(id)])
  {
    var t1 := t + [Completed(id)];
    assert Init(t1) == t;
    CompletionBalance(t, id);
    var t2 := t1 + [Completed(id)];
    assert Init(t2) == t1;
    assert !IsPending(t1, id);
  }
}
