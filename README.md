# Dokan security request handlers, modelled in Dafny

Dokan is a user-mode file system framework for Windows. Its kernel driver hands
file-system requests to a user-mode service and finishes them when the service
replies. This project models the driver's handling of security requests in
`sys/security.c`:

- **Query dispatch** (`DokanDispatchQuerySecurity`). It checks the request:
  a file object, a device extension tagged VCB, and a CCB, in that order.
  It allocates an event context of header size plus file-name length.
  It attaches an MDL to a non-empty user buffer that has none yet.
  It fills in the event context and registers the request as pending.
  Its `__finally` part completes the request unless the status is `STATUS_PENDING`.
- **Query completion** (`DokanCompleteQuerySecurity`). It applies the size rule to
  the service's reply. The rule either copies the reply and succeeds, or reports
  `STATUS_BUFFER_OVERFLOW` with the size needed, or reports
  `STATUS_INVALID_PARAMETER`. It then releases the MDL and completes the request once.
- **Set dispatch** (`DokanDispatchSetSecurity`). It checks the file object and
  the device tag, then completes the request at once with success.

Files:

- `kernel.dfy` (module `Kernel`): NTSTATUS values and `NT_SUCCESS`, the
  ULONG/ULONG64/byte ranges, an `Option` for pointers that may be NULL, and
  `RtlCopyMemory` as an in-place copy into an array.
- `dokan.dfy` (module `Dokan`): the driver's records. The IRP is a class, because
  the handlers update its `IoStatus`, its `MdlAddress` and its completion in place.
  FCB, CCB, file object, device extension, MDL, event context and the service's
  reply are datatypes. The pending registry is a class with a ghost map from
  registered IRPs to the event context sent for each.
- `security.dfy` (module `Security`): the three entry points as methods. Each is
  proved against a pure function that gives its decision: `PlanQuery`,
  `QueryReply` and `SetSecurityStatus`. Each `__leave` is a `break` out of a
  labelled block, and the code after that block is the `__finally` part.
- `lifecycle.dfy` (module `Lifecycle`): an abstract trace of dispatch and
  completion events. Each step mirrors a handler's contract: a dispatch
  finalizes the request unless it returns `STATUS_PENDING`, and a completion
  finalizes a request the registry holds. Its lemmas prove that each request is
  finalized at most once, and exactly once when it is no longer pending.
- `session.dfy` (module `Session`): one query from dispatch to completion.
  `ServeQuerySecurity` calls `DispatchQuerySecurity`. When that returns
  `STATUS_PENDING`, the registry hands the request back and
  `CompleteQuerySecurity` runs. From the contracts of these three steps alone (the two handlers and `PendingIrps.HandBack`), the
  request ends completed exactly once and out of the registry. The run's events
  form an allowed `Lifecycle` trace whose completion count equals the IRP's, so
  a handler that completed a pending request, or completed one twice, would
  fail this proof.

The routines the handlers call but do not define become parameters:

- `AllocateEventContext` can return memory or NULL (`Outcomes.allocOk`).
- `DokanAllocateMdl` returns a status (`Outcomes.mdlStatus`). The model assumes
  it attaches an MDL for the user buffer exactly when that status is an
  `NT_SUCCESS` status.
- `DokanRegisterPendingIrp` returns a status (`Outcomes.registerStatus`). The
  model assumes it enters the request in the registry exactly when it
  returns `STATUS_PENDING`.
- `MmGetSystemAddressForMdlSafe` gives a system address or NULL (`mapOk`).
- `sizeof(EVENT_CONTEXT)` is the parameter `headerSize`.

Three details of the dispatch code:

- Dispatch sets `STATUS_INSUFFICIENT_RESOURCES` itself only when
  `AllocateEventContext` fails (sys/security.c:136). When `DokanAllocateMdl`
  fails, dispatch frees the event context and returns that routine's own status
  (sys/security.c:143-146). After registration it returns whatever
  `DokanRegisterPendingIrp` answered (sys/security.c:159).
- Dispatch rejects a NULL file object, a device extension not tagged VCB, and a
  NULL CCB, each with `STATUS_INVALID_PARAMETER` (sys/security.c:54-76).
- An MDL the IRP already carries is kept, and no new one is allocated
  (sys/security.c:142).

## Model

| member | source | states |
|---|---|---|
| `Kernel.Overwrite` | sys/security.c:205 | after copying n bytes, the buffer keeps its length; its first n bytes are the source's and every later byte is unchanged |
| `Kernel.CopyMemory` | sys/security.c:205 | the in-place copy leaves the array equal to `Overwrite` of its old contents |
| `Dokan.Irp.AllocateMdl` | sys/security.c:143 | returns the allocator's status; an MDL over the user buffer is attached exactly on an NT_SUCCESS status; IoStatus and the completion count are untouched |
| `Dokan.Irp.FreeMdl` | sys/security.c:219-223 | MdlAddress becomes NULL and nothing else changes |
| `Dokan.Irp.Complete` | sys/security.c:164-166 | IoStatus gets the given status and information, and the completion count rises by exactly one |
| `Dokan.PendingIrps.Register` | sys/security.c:159 | returns the registration's status; the request and its event context are entered exactly when that status is STATUS_PENDING |
| `Dokan.PendingIrps.HandBack` | sys/security.c:179-181 | the registry gives back the request with the event context sent for it and no longer holds it |
| `Security.PlanQuery` | sys/security.c:54-159 | a failed check gives STATUS_INVALID_PARAMETER with no allocation, no MDL and no registration; a failed event-context allocation gives STATUS_INSUFFICIENT_RESOURCES with nothing registered; an MDL is attached iff there is a user buffer, a positive length, no MDL yet and an NT_SUCCESS allocation; a failed MDL allocation frees the event context and returns the allocator's status; an allocated event context is freed or handed on, never both; the handed-on context has length header + name length, the CCB's user context, the request's mask and length, and the FCB's name bytes and length; Information is always 0; the result is STATUS_PENDING iff the registry took the request |
| `Security.DispatchQuerySecurity` | sys/security.c:23-175 | returns the status `PlanQuery` gives; the MDL is attached as `PlanQuery` says and otherwise unchanged; the registry gains the request exactly on STATUS_PENDING; on any other status the IRP is completed once with that status and Information 0; on STATUS_PENDING IoStatus and the completion count are not touched |
| `Security.QueryReply` | sys/security.c:202-217 | the result is one of success, buffer overflow or invalid parameter; success iff the reply is a success that fits and a buffer is mapped, and then Information is the reply length, which is at most the requested length; overflow iff the reply is an overflow or a success longer than requested, and then Information is the reply length; invalid parameter otherwise, with Information 0 |
| `Security.CompleteQuerySecurity` | sys/security.c:178-232 | IoStatus is `QueryReply`'s outcome; on success the mapped buffer's first reply-length bytes are the reply's and the rest are unchanged; on every other outcome no byte of it changes; MdlAddress ends NULL; the IRP is completed exactly once |
| `Security.SetSecurityStatus` | sys/security.c:256-272 | never STATUS_PENDING; STATUS_SUCCESS iff there is a file object and the device extension is tagged VCB; STATUS_INVALID_PARAMETER otherwise |
| `Security.DispatchSetSecurity` | sys/security.c:235-288 | returns `SetSecurityStatus`; completes the IRP exactly once with that status and Information 0; leaves the MDL alone |
| `Session.ServeQuerySecurity` | sys/security.c:161-227 | a request that is neither completed nor registered, dispatched and then (if pending) completed, ends completed exactly once, with the registry as it was before and the request not in it, with a status other than STATUS_PENDING; the run is an allowed `Lifecycle` trace whose completion count is the IRP's |
| `Lifecycle.CompletionBalance` | sys/security.c:159-168 | along any allowed trace, a request's completion count plus one if it is pending equals one if it was dispatched and zero otherwise |
| `Lifecycle.FinalizedAtMostOnce` | sys/security.c:163-166 | along any allowed trace, no request is completed more than once |
| `Lifecycle.FinalizedOnceUnlessPending` | sys/security.c:161-168 | a dispatched request is pending exactly when it has not been completed, and has been completed exactly once when it is not pending |
| `Lifecycle.CompletedOnlyAfterPending` | sys/security.c:225-227 | the completion handler runs only for a request whose dispatch left it pending and uncompleted, and cannot run twice in a row for it |

## Left out

- Logging is left out: `DDbgPrint`, `DbgPrint`, `DokanPrintNTStatus`, and the `switch` on the security-information mask, which only logs. The mask is carried as opaque data.
- `FsRtlEnterFileSystem`/`FsRtlExitFileSystem` and the exception side of `__try`/`__finally` are left out; only the `__leave` jumps are modelled.
- The descriptor fast path behind `dummy = FALSE` is dead code, so it is left out. The case after its overflow check depends on `RtlCreateSecurityDescriptor` and `SeQuerySecurityDescriptorInfo`.
- The header fields that `AllocateEventContext` fills in (serial number, process id and others) are not modelled. The EVENT_CONTEXT byte layout is in `dokan.h`, which is not part of this model. The fields the handler writes start at zero in the model.
- `ExFreePool` of the event context is a ghost flag. `MmUnlockPages` plus `IoFreeMdl` is modelled as clearing `MdlAddress`. `IoCompleteRequest` is a count.
- The pending registry's implementation is not part of this model. That covers removing an entry before completion, cancellation, locking, and concurrency between dispatch and completion. `Lifecycle` assumes the completion handler runs only for a request the registry has just handed back.
- Who frees the event context when `DokanRegisterPendingIrp` fails is not shown, so the model leaves it to that routine.
- The model assumes the reply's declared length is no larger than the bytes it carries (`requires` of `CompleteQuerySecurity`); the copy at sys/security.c:205 reads `EventInfo->BufferLength` bytes without checking.
- The I/O manager is assumed to give a user buffer or existing MDL that covers the requested length (`Irp.Valid`).
- Setting a security descriptor is not modelled, because the set handler does not set one.
- The file name's length is not bounded by the 16-bit `UNICODE_STRING.Length` field. The sum of header size and name length cannot overflow a ULONG in the driver either way.
