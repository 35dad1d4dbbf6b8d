/** One security query from dispatch to completion: the request is dispatched,
    and if dispatch leaves it pending, the registry hands it back when the
    service replies and the completion handler finalizes it. The events of the
    run form a trace of the `Lifecycle` model, so that model's lemmas apply to
    the handlers' own contracts. */
module Session {
  import opened Kernel
  import opened Dokan
  import opened Security
  import Lifecycle

  /** A query run for a request that is not yet finalized nor registered,
      with the service answering `reply` if the request is left pending. */
  method ServeQuerySecurity(device: DeviceObject, irp: Irp, registry: PendingIrps,
                            headerSize: nat, env: Outcomes, reply: EventInformation,
                            mapOk: bool, ghost id: Lifecycle.RequestId)
    returns (status: NTSTATUS, ghost trace: seq<Lifecycle.Event>)
    requires irp.Valid()
    requires irp.completeCount == 0 && irp !in registry.entries
    requires reply.bufferLength <= |reply.buffer|
    modifies irp, registry, irp.MdlPages(), irp.UserPages()
    ensures irp.Valid()
    // Finalized exactly once, and nothing is left in the registry.
    ensures irp.completeCount == 1
    ensures irp !in registry.entries && registry.entries == old(registry.entries)
    ensures irp.status != STATUS_PENDING
    // The run is an allowed trace whose completion count is the packet's.
    ensures Lifecycle.ValidTrace(trace) && Lifecycle.WasDispatched(trace, id)
    ensures Lifecycle.Completions(trace, id) == irp.completeCount
    ensures !Lifecycle.IsPending(trace, id)
  {
    ghost var a, f, h;
    status, a, f, h := DispatchQuerySecurity(device, irp, registry, headerSize, env);
    Lifecycle.Extend([], Lifecycle.Dispatched(id, status));
    trace := [] + [Lifecycle.Dispatched(id, status)];
    if status == STATUS_PENDING {
      ghost var ctx := registry.HandBack(irp);
      CompleteQuerySecurity(irp, reply, mapOk);
      Lifecycle.Extend(trace, Lifecycle.Completed(id));
      trace := trace + [Lifecycle.Completed(id)];
    }
  }
}
