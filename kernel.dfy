/** Windows kernel vocabulary used by the Dokan driver: fixed-width integers,
    NTSTATUS values and the byte copy done by RtlCopyMemory. */
module Kernel {

  /** An optional value, standing for a pointer that may be NULL. */
  datatype Option<+T> = None | Some(value: T)

  /** UCHAR, ULONG and ULONG64 as the unsigned ranges they hold. */
  type Byte = x: int | 0 <= x < 0x100
  type ULong = x: int | 0 <= x < 0x1_0000_0000
  type ULong64 = x: int | 0 <= x < 0x1_0000_0000_0000_0000

  /** An NTSTATUS as the 32-bit pattern it is stored in. */
  type NTSTATUS = ULong

  const STATUS_SUCCESS: NTSTATUS := 0x0000_0000
  const STATUS_PENDING: NTSTATUS := 0x0000_0103
  const STATUS_BUFFER_OVERFLOW: NTSTATUS := 0x8000_0005
  const STATUS_NOT_IMPLEMENTED: NTSTATUS := 0xC000_0002
  const STATUS_INVALID_PARAMETER: NTSTATUS := 0xC000_000D
  const STATUS_INSUFFICIENT_RESOURCES: NTSTATUS := 0xC000_009A

  /** NT_SUCCESS: the status, read as a signed 32-bit LONG, is not negative
      (severity "success" or "informational"). */
  predicate NtSuccess(s: NTSTATUS) {
    s < 0x8000_0000
  }

  /** The bytes of `dst` after the first `n` bytes of `src` are copied to its start. */
  function Overwrite(dst: seq<Byte>, src: seq<Byte>, n: nat): (r: seq<Byte>)
    requires n <= |dst| && n <= |src|
    ensures |r| == |dst|
    ensures forall i :: 0 <= i < n ==> r[i] == src[i]
    ensures forall i :: n <= i < |dst| ==> r[i] == dst[i]
  {
    src[..n] + dst[n..]
  }

  /** RtlCopyMemory(dst, src, n) into a buffer the caller owns. */
  method CopyMemory(dst: array<Byte>, src: seq<Byte>, n: nat)
    requires n <= dst.Length && n <= |src|
    modifies dst
    ensures dst[..] == Overwrite(old(dst[..]), src, n)
  {
    for i := 0 to n
      invariant forall k :: 0 <= k < i ==> dst[k] == src[k]
      invariant forall k :: i <= k < dst.Length ==> dst[k] == old(dst[k])
    {
      dst[i] := src[i];
    }
  }
}
