/** The security request handlers of the Dokan driver: query dispatch (forward
    the request to the user-mode service and leave it pending), completion of a
    query when the service replies, and set dispatch (accepted at once). */
module Security {
  import opened Kernel
  import opened Dokan

  /** What the routines the query dispatch calls but that are not part of this
      model answer in one run: whether AllocateEventContext returned memory,
      the status DokanAllocateMdl returns, and the status DokanRegisterPendingIrp
      returns. */
  datatype Outcomes = Outcomes(allocOk: bool, mdlStatus: NTSTATUS, registerStatus: NTSTATUS)

  /** What one query dispatch decided: the status it returns, the Information it
      reports, whether an event context was allocated, whether it attached a new
      MDL to the request, whether it freed the event context again, and the event
      context it handed to the pending registry. */
  datatype QueryDispatch = QueryDispatch(
    status: NTSTATUS,
    info: ULong,
    ctxAllocated: bool,
    mdlAllocated: bool,
    ctxFreed: bool,
    handedOff: Option<EventContext>)

  /** The three checks of query dispatch, in the order made: a file object, a
      device extension tagged VCB, and a CCB on the file object. */
  predicate QueryAccepted(fileObject: Option<FileObject>, device: DeviceObject) {
    && fileObject.Some?
    && device.extensionType == VCB
    && fileObject.value.fsContext2.Some?
  }

  /** A new MDL is needed when there is a non-empty user buffer and the request
      carries no MDL yet. */
  predicate NeedsMdl(hasUserBuffer: bool, length: ULong, hasMdl: bool) {
    hasUserBuffer && length > 0 && !hasMdl
  }

  /** The event context query dispatch fills in for the open `ccb`, with an
      allocation of `headerSize` bytes of header followed by the file name. */
  function QueryEventContext(ccb: Ccb, securityInformation: ULong, length: ULong, headerSize: nat): EventContext {
    EventContext(
      headerSize + |ccb.fcb.fileName|,
      ccb.userContext,
      securityInformation,
      length,
      |ccb.fcb.fileName|,
      ccb.fcb.fileName)
  }

  /** The decision DokanDispatchQuerySecurity makes for a request with the given
      parameters, when the foreign routines answer `env`. */
  function PlanQuery(fileObject: Option<FileObject>, device: DeviceObject, securityInformation: ULong,
                     length: ULong, hasUserBuffer: bool, hasMdl: bool, headerSize: nat,
                     env: Outcomes): (d: QueryDispatch)
    // Query dispatch never reports a byte count.
    ensures d.info == 0
    // A rejected request allocates nothing and registers nothing.
    ensures !QueryAccepted(fileObject, device) ==>
              d == QueryDispatch(STATUS_INVALID_PARAMETER, 0, false, false, false, None)
    ensures QueryAccepted(fileObject, device) && !env.allocOk ==>
              d == QueryDispatch(STATUS_INSUFFICIENT_RESOURCES, 0, false, false, false, None)
    ensures d.ctxAllocated <==> QueryAccepted(fileObject, device) && env.allocOk
    // An MDL is attached only for a non-empty buffer that has none yet.
    ensures d.mdlAllocated <==>
              d.ctxAllocated && NeedsMdl(hasUserBuffer, length, hasMdl) && NtSuccess(env.mdlStatus)
    // A failed MDL allocation frees the event context and reports the allocator's status.
    ensures d.ctxFreed <==>
              d.ctxAllocated && NeedsMdl(hasUserBuffer, length, hasMdl) && !NtSuccess(env.mdlStatus)
    ensures d.ctxFreed ==> d.status == env.mdlStatus
    // An allocated event context is either freed or handed on, never both, never neither.
    ensures d.ctxAllocated ==> (d.ctxFreed <==> d.handedOff.None?)
    ensures !d.ctxAllocated ==> !d.ctxFreed && d.handedOff.None?
    // What is handed on describes the request and the file.
    ensures d.handedOff.Some? ==>
              && QueryAccepted(fileObject, device)
              && d.status == env.registerStatus
              && var ccb := fileObject.value.fsContext2.value;
                 var e := d.handedOff.value;
                 && e.length == headerSize + |ccb.fcb.fileName|
                 && e.context == ccb.userContext
                 && e.securityInformation == securityInformation
                 && e.bufferLength == length
                 && e.fileNameLength == |ccb.fcb.fileName|
                 && e.fileName == ccb.fcb.fileName
    // The request is left pending exactly when the registry took it.
    ensures d.status == STATUS_PENDING <==> d.handedOff.Some? && env.registerStatus == STATUS_PENDING
  {
    if !QueryAccepted(fileObject, device) then
      QueryDispatch(STATUS_INVALID_PARAMETER, 0, false, false, false, None)
    else if !env.allocOk then
      QueryDispatch(STATUS_INSUFFICIENT_RESOURCES, 0, false, false, false, None)
    else if NeedsMdl(hasUserBuffer, length, hasMdl) && !NtSuccess(env.mdlStatus) then
      QueryDispatch(env.mdlStatus, 0, true, false, true, None)
    else
      var ctx := QueryEventContext(fileObject.value.fsContext2.value, securityInformation, length, headerSize);
      QueryDispatch(env.registerStatus, 0, true, NeedsMdl(hasUserBuffer, length, hasMdl), false, Some(ctx))
  }

  /** DokanDispatchQuerySecurity. A `__leave` is a break out of the block
      labelled `body`; what follows the block is the `__finally` part. The ghost
      results record what became of the event context. */
  method DispatchQuerySecurity(device: DeviceObject, irp: Irp, registry: PendingIrps,
                               headerSize: nat, env: Outcomes)
    returns (status: NTSTATUS, ghost ctxAllocated: bool, ghost ctxFreed: bool,
             ghost handedOff: Option<EventContext>)
    requires irp.Valid()
    modifies irp, registry
    ensures irp.Valid()
    ensures var d := PlanQuery(irp.fileObject, device, irp.securityInformation, irp.length,
                               irp.userBuffer.Some?, old(irp.mdl).Some?, headerSize, env);
            && status == d.status
            && ctxAllocated == d.ctxAllocated && ctxFreed == d.ctxFreed && handedOff == d.handedOff
            && irp.mdl == (if d.mdlAllocated then Some(Mdl(irp.userBuffer.value)) else old(irp.mdl))
    ensures registry.entries ==
              if status == STATUS_PENDING then old(registry.entries)[irp := handedOff.value]
              else old(registry.entries)
    // Completed once, with the returned status, unless pending; a pending request is not touched.
    ensures status != STATUS_PENDING ==>
              && irp.status == status && irp.information == 0
              && irp.completeCount == old(irp.completeCount) + 1
    ensures status == STATUS_PENDING ==>
              && irp.status == old(irp.status) && irp.information == old(irp.information)
              && irp.completeCount == old(irp.completeCount)
  {
    status := STATUS_NOT_IMPLEMENTED;
    var info: ULong := 0;
    ctxAllocated, ctxFreed, handedOff := false, false, None;

    label body: {
      var fileObject := irp.fileObject;
      if fileObject.None? {
        status := STATUS_INVALID_PARAMETER;
        break body;
      }
      if device.extensionType != VCB {
        status := STATUS_INVALID_PARAMETER;
        break body;
      }
      var ccb := fileObject.value.fsContext2;
      if ccb.None? {
        status := STATUS_INVALID_PARAMETER;
        break body;
      }
      var fcb := ccb.value.fcb;
      var bufferLength := irp.length;
      var securityInfo := irp.securityInformation;

      var eventLength := headerSize + |fcb.fileName|;
      if !env.allocOk {
        status := STATUS_INSUFFICIENT_RESOURCES;
        break body;
      }
      var eventContext := EventContext(eventLength, 0, 0, 0, 0, []);
      ctxAllocated := true;

      if irp.userBuffer.Some? && bufferLength > 0 {
        // an MDL lets the completion, on another thread, reach the user buffer
        if irp.mdl.None? {
          status := irp.AllocateMdl(env.mdlStatus);
          if !NtSuccess(status) {
            ctxFreed := true;
            break body;
          }
        }
      }

      eventContext := eventContext.(context := ccb.value.userContext);
      eventContext := eventContext.(securityInformation := securityInfo);
      eventContext := eventContext.(bufferLength := bufferLength);
      eventContext := eventContext.(fileNameLength := |fcb.fileName|);
      eventContext := eventContext.(fileName := fcb.fileName);

      handedOff := Some(eventContext);
      status := registry.Register(irp, eventContext, env.registerStatus);
    }

    if status != STATUS_PENDING {
      irp.Complete(status, info);
    }
  }

  /** How the completion of a query is reported upward. */
  datatype ReplyOutcome = ReplyOutcome(status: NTSTATUS, info: ULong)

  /** The size rule DokanCompleteQuerySecurity applies to the service's reply:
      a reply of `replyLength` bytes with status `replyStatus`, for a request of
      `requested` bytes, where `mapped` says whether the user buffer could be
      reached through the request's MDL. */
  function QueryReply(replyStatus: NTSTATUS, replyLength: ULong, requested: ULong, mapped: bool): (o: ReplyOutcome)
    ensures o.status == STATUS_SUCCESS || o.status == STATUS_BUFFER_OVERFLOW ||
            o.status == STATUS_INVALID_PARAMETER
    // Data is delivered only when it was produced, fits, and has somewhere to go.
    ensures o.status == STATUS_SUCCESS <==>
              replyStatus == STATUS_SUCCESS && replyLength <= requested && mapped
    ensures o.status == STATUS_SUCCESS ==> o.info == replyLength && o.info <= requested
    // Too small a buffer is reported with the size the caller must retry with.
    ensures o.status == STATUS_BUFFER_OVERFLOW <==>
              replyStatus == STATUS_BUFFER_OVERFLOW ||
              (replyStatus == STATUS_SUCCESS && requested < replyLength)
    ensures o.status == STATUS_BUFFER_OVERFLOW ==> o.info == replyLength
    // Everything else, including a fitting reply with no buffer to copy to.
    ensures o.status == STATUS_INVALID_PARAMETER ==> o.info == 0
  {
    if replyStatus == STATUS_SUCCESS && replyLength <= requested && mapped then
      ReplyOutcome(STATUS_SUCCESS, replyLength)
    else if replyStatus == STATUS_BUFFER_OVERFLOW ||
            (replyStatus == STATUS_SUCCESS && requested < replyLength) then
      ReplyOutcome(STATUS_BUFFER_OVERFLOW, replyLength)
    else
      ReplyOutcome(STATUS_INVALID_PARAMETER, 0)
  }

  /** DokanCompleteQuerySecurity for a request the pending registry handed back
      with the service's `reply`. `mapOk` is whether MmGetSystemAddressForMdlSafe
      gives a system address for the request's MDL. */
  method CompleteQuerySecurity(irp: Irp, reply: EventInformation, mapOk: bool)
    requires irp.Valid()
    requires reply.bufferLength <= |reply.buffer|
    modifies irp, irp.MdlPages()
    ensures irp.Valid() && irp.mdl == None
    ensures var o := QueryReply(reply.status, reply.bufferLength, irp.length, old(irp.mdl).Some? && mapOk);
            && irp.status == o.status && irp.information == o.info
            && (old(irp.mdl).Some? ==>
                  var pages := old(irp.mdl).value.pages;
                  pages[..] == if o.status == STATUS_SUCCESS
                               then Overwrite(old(pages[..]), reply.buffer, reply.bufferLength)
                               else old(pages[..]))
    ensures irp.completeCount == old(irp.completeCount) + 1
  {
    var buffer: Option<array<Byte>> := None;
    if irp.mdl.Some? && mapOk {
      buffer := Some(irp.mdl.value.pages);
    }
    var bufferLength := irp.length;

    var o := QueryReply(reply.status, reply.bufferLength, bufferLength, buffer.Some?);
    if o.status == STATUS_SUCCESS {
      CopyMemory(buffer.value, reply.buffer, reply.bufferLength);
    }

    if irp.mdl.Some? {
      irp.FreeMdl();
    }
    irp.Complete(o.status, o.info);
  }

  /** The decision DokanDispatchSetSecurity makes. */
  function SetSecurityStatus(fileObject: Option<FileObject>, device: DeviceObject): (s: NTSTATUS)
    ensures s != STATUS_PENDING
    ensures s == STATUS_SUCCESS <==> fileObject.Some? && device.extensionType == VCB
    ensures s != STATUS_SUCCESS ==> s == STATUS_INVALID_PARAMETER
  {
    if fileObject.None? || device.extensionType != VCB then STATUS_INVALID_PARAMETER
    else STATUS_SUCCESS
  }

  /** DokanDispatchSetSecurity: checks the request and completes it at once;
      the descriptor itself is not applied anywhere. */
  method DispatchSetSecurity(device: DeviceObject, irp: Irp) returns (status: NTSTATUS)
    requires irp.Valid()
    modifies irp
    ensures irp.Valid() && irp.mdl == old(irp.mdl)
    ensures status == SetSecurityStatus(irp.fileObject, device)
    ensures irp.status == status && irp.information == 0
    ensures irp.completeCount == old(irp.completeCount) + 1
  {
    status := STATUS_NOT_IMPLEMENTED;
    var info: ULong := 0;

    label body: {
      var fileObject := irp.fileObject;
      if fileObject.None? {
        status := STATUS_INVALID_PARAMETER;
        break body;
      }
      if device.extensionType != VCB {
        status := STATUS_INVALID_PARAMETER;
        break body;
      }
      status := STATUS_SUCCESS;
    }

    if status != STATUS_PENDING {
      irp.Complete(status, info);
    }
  }
}
