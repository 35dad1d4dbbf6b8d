/** The Dokan driver's records that the security handlers read and write:
    the device extension tag, the per-file and per-open control blocks, the
    I/O request packet, the event context sent to the user-mode service, the
    service's reply, and the registry of requests waiting for that reply. */
module Dokan {
  import opened Kernel

  /** The tag at the start of every Dokan device extension and control block. */
  datatype IdentifierType = DGL | DCB | VCB | FCB | CCB | Unknown(raw: ULong)

  /** The device object's extension, as far as the handlers look at it. */
  datatype DeviceObject = DeviceObject(extensionType: IdentifierType)

  /** File control block: the file's name as the bytes of its UNICODE_STRING. */
  datatype Fcb = Fcb(fileName: seq<Byte>)

  /** Context control block: one open of a file, with the service's own value for it. */
  datatype Ccb = Ccb(fcb: Fcb, userContext: ULong64)

  /** The file object of the request; FsContext2 is the per-open CCB, possibly NULL. */
  datatype FileObject = FileObject(fsContext2: Option<Ccb>)

  /** A memory descriptor list: a handle that lets another thread reach the pages it describes. */
  datatype Mdl = Mdl(pages: array<Byte>)

  /** Event context for a security query, as the driver fills it in.
      `length` is the size the context was allocated with. */
  datatype EventContext = EventContext(
    length: nat,
    context: ULong64,
    securityInformation: ULong,
    bufferLength: ULong,
    fileNameLength: nat,
    fileName: seq<Byte>)

  /** The service's reply (EVENT_INFORMATION): a status and `bufferLength` bytes of `buffer`. */
  datatype EventInformation = EventInformation(status: NTSTATUS, bufferLength: ULong, buffer: seq<Byte>)

  /** An I/O request packet for IRP_MJ_QUERY_SECURITY or IRP_MJ_SET_SECURITY.
      The constant fields are the current stack location's parameters and the
      caller's buffer; the mutable ones are IoStatus, MdlAddress and the number of
      times the packet has been handed to IoCompleteRequest. */
  class Irp {
    const fileObject: Option<FileObject>
    const securityInformation: ULong
    const length: ULong
    const userBuffer: Option<array<Byte>>

    var status: NTSTATUS
    var information: nat
    var completeCount: nat
    var mdl: Option<Mdl>

    /** The I/O manager's guarantee: the caller's buffer, and any MDL already
        attached, cover the requested length. */
    ghost predicate Valid()
      reads this
    {
      && (userBuffer.Some? ==> length <= userBuffer.value.Length)
      && (mdl.Some? ==> length <= mdl.value.pages.Length)
    }

    /** The pages the MDL, if any, lets the driver write. */
    ghost function MdlPages(): set<object>
      reads this
    {
      if mdl.Some? then {mdl.value.pages} else {}
    }

    /** The caller's buffer, if any. */
    ghost function UserPages(): set<object>
      reads this
    {
      if userBuffer.Some? then {userBuffer.value} else {}
    }

    constructor (fileObject: Option<FileObject>, securityInformation: ULong, length: ULong,
                 userBuffer: Option<array<Byte>>, mdl: Option<Mdl>)
      requires userBuffer.Some? ==> length <= userBuffer.value.Length
      requires mdl.Some? ==> length <= mdl.value.pages.Length
      ensures Valid()
      ensures this.fileObject == fileObject && this.securityInformation == securityInformation
      ensures this.length == length && this.userBuffer == userBuffer && this.mdl == mdl
      ensures status == STATUS_SUCCESS && information == 0 && completeCount == 0
    {
      this.fileObject := fileObject;
      this.securityInformation := securityInformation;
      this.length := length;
      this.userBuffer := userBuffer;
      this.mdl := mdl;
      status := STATUS_SUCCESS;
      information := 0;
      completeCount := 0;
    }

    /** DokanAllocateMdl(Irp, Length): on a success status the packet carries a
        fresh MDL for its user buffer; otherwise MdlAddress stays NULL. The
        status the allocator returns is the parameter `outcome`. */
    method AllocateMdl(outcome: NTSTATUS) returns (s: NTSTATUS)
      requires Valid() && userBuffer.Some? && mdl.None?
      modifies this
      ensures Valid() && s == outcome
      ensures mdl == if NtSuccess(outcome) then Some(Mdl(userBuffer.value)) else None
      ensures status == old(status) && information == old(information)
      ensures completeCount == old(completeCount)
    {
      if NtSuccess(outcome) {
        mdl := Some(Mdl(userBuffer.value));
      }
      s := outcome;
    }

    /** MmUnlockPages and IoFreeMdl on the packet's MDL, then MdlAddress = NULL. */
    method FreeMdl()
      requires Valid()
      modifies this
      ensures Valid() && mdl == None
      ensures status == old(status) && information == old(information)
      ensures completeCount == old(completeCount)
    {
      mdl := None;
    }

    /** IoStatus.Status and IoStatus.Information are set, then IoCompleteRequest. */
    method Complete(s: NTSTATUS, info: nat)
      requires Valid()
      modifies this
      ensures Valid() && mdl == old(mdl)
      ensures status == s && information == info
      ensures completeCount == old(completeCount) + 1
    {
      status := s;
      information := info;
      completeCount := completeCount + 1;
    }
  }

  /** The registry of requests waiting for the service, each with the event
      context sent for it. Its implementation is not part of this model; only
      what registration adds is. */
  class PendingIrps {
    ghost var entries: map<Irp, EventContext>

    constructor ()
      ensures entries == map[]
    {
      entries := map[];
    }

    /** DokanRegisterPendingIrp: the request is entered exactly when the routine
        answers STATUS_PENDING; its answer is the parameter `outcome`. */
    method Register(irp: Irp, ctx: EventContext, outcome: NTSTATUS) returns (s: NTSTATUS)
      modifies this
      ensures s == outcome
      ensures entries == if outcome == STATUS_PENDING then old(entries)[irp := ctx] else old(entries)
    {
      if outcome == STATUS_PENDING {
        entries := entries[irp := ctx];
      }
      s := outcome;
    }

    /** The registry gives back a pending request before its completion runs;
        the event context sent for it comes back with it. */
    method HandBack(irp: Irp) returns (ghost ctx: EventContext)
      requires irp in entries
      modifies this
      ensures ctx == old(entries)[irp]
      ensures entries == old(entries) - {irp}
    {
      ctx := entries[irp];
      entries := entries - {irp};
    }
  }
}
