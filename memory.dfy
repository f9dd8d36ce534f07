/** Byte-level vocabulary shared by the two userfaultfd programs: bytes,
    64-bit addresses and the 4096-byte page. Both programs use pages of
    4096 bytes; the number is written out wherever it multiplies or
    divides, so that the arithmetic stays linear for the verifier. */
module Memory {

  /** One byte of memory (a C `char` seen as an unsigned value). */
  newtype byte = x: int | 0 <= x < 256

  /** A virtual address, an `unsigned long` on a 64-bit machine: one of
      the 2^64 values. */
  type Addr = a: int | 0 <= a < 0x1_0000_0000_0000_0000

  /** The start of the page that holds `a`, which the C code computes as
      `a & ~(4096 - 1)`; MaskClearsPageOffset shows the two agree. */
  function AlignDown(a: Addr): (d: Addr)
    ensures d % 4096 == 0
    ensures d <= a < d + 4096
  {
    a - a % 4096
  }

  /** Clearing the low twelve bits of a 64-bit address subtracts its
      remainder modulo 4096: the mask of the C code is AlignDown. */
  lemma MaskClearsPageOffset(x: bv64)
    ensures x & !0xFFF == x - x % 0x1000
    ensures x - x % 0x1000 <= x
  {
  }

  /** An aligned address inside a region that starts on a page boundary
      is the start of the page whose index is its distance from the base
      divided by the page size. */
  lemma AlignedPageStart(base: Addr, a: Addr)
    requires base % 4096 == 0 && base <= a
    ensures AlignDown(a) - base == (a - base) / 4096 * 4096
    ensures base <= AlignDown(a)
  {
    var p := (a - base) / 4096;
    var r := (a - base) % 4096;
    assert a - base == p * 4096 + r;
    assert base == (base / 4096) * 4096;
    assert a == (base / 4096 + p) * 4096 + r;
    assert a % 4096 == r;
  }

  /** What one `poll` and `read` of the userfaultfd hand a fault handler. */
  datatype Event =
    | PollFailed          // poll() returned -1
    | ReadEof             // read() returned 0
    | ReadFailed          // read() returned -1
    | OtherEvent          // msg.event is not UFFD_EVENT_PAGEFAULT
    | PageFault(address: Addr)

  /** How a fault handler's loop body ends: the process exits, or the page
      starting at `dst` was installed. */
  datatype Outcome = Fatal | Installed(dst: Addr)
}
