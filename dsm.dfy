/**
 * The MSI page directory of
 * SuperSimpleDistributedSharedMemory/Part2/s2dsm_P2.c: two processes
 * agree on a shared region of `num_pages` pages, each keeps one MSI state
 * per page, a fault handler installs a zero page and fetches the page
 * into SHARED, and a command loop reads (`r`), writes (`w`) or views
 * (`v`) pages.
 */
module Dsm {
  import opened Wrappers
  import opened Memory

  /** The state of one page in this process: MSIState, lines 22-26. */
  datatype MSIState = Invalid | Shared | Modified

  // `strncpy(.., PAGESIZE - 1)` fills the first 4095 bytes of a page;
  // the last byte is never written by a command.

  /** `scanf(" %1023[^\n]", message)` stores at most 1023 bytes. */
  const MSG_MAX: nat := 1023

  // ---------------------------------------------------------------------
  // Agreeing on the region (lines 186-215)
  // ---------------------------------------------------------------------

  /** Which side of the handshake a process plays. */
  datatype Role = Allocator | Follower

  /** The process with the smaller port maps the region and sends its
      address and size; the other one receives them. */
  function RoleOf(localPort: int, remotePort: int): (r: Role)
    ensures r == Allocator <==> localPort < remotePort
  {
    if localPort < remotePort then Allocator else Follower
  }

  /** A region both processes map: its base address and page count. */
  datatype Mapping = Mapping(base: Addr, numPages: int)

  /**
   * The region a process goes on with after the handshake, or None when
   * it exits. `mapped` is what its own mmap returned (None for
   * MAP_FAILED), `requested` the page count the allocator's user typed,
   * and `received` what the follower read from the socket. The follower
   * asks mmap for the received address and exits unless it gets exactly
   * that address; it then adopts the received page count.
   */
  function Setup(localPort: int, remotePort: int, requested: int, mapped: Option<Addr>,
                 received: Mapping): (r: Option<Mapping>)
    ensures localPort < remotePort ==>
              && (r.Some? <==> mapped.Some?)
              && (r.Some? ==> r.value == Mapping(mapped.value, requested))
    ensures remotePort <= localPort ==>
              && (r.Some? <==> mapped == Some(received.base))
              && (r.Some? ==> r.value == received)
  {
    match RoleOf(localPort, remotePort)
    case Allocator => if mapped.Some? then Some(Mapping(mapped.value, requested)) else None
    case Follower => if mapped == Some(received.base) then Some(received) else None
  }

  /** Two processes on different ports take opposite roles; when the
      allocator succeeds and sends its mapping, and the follower's mmap
      returns the address it was sent, both go on with the same region. */
  lemma PeersAgree(allocPort: int, followPort: int, requested: int, allocMapped: Option<Addr>,
                   ignored: Mapping, followRequested: int, followMapped: Option<Addr>)
    requires allocPort < followPort
    requires Setup(allocPort, followPort, requested, allocMapped, ignored).Some?
    requires followMapped == Some(Setup(allocPort, followPort, requested, allocMapped, ignored).value.base)
    ensures RoleOf(allocPort, followPort) == Allocator && RoleOf(followPort, allocPort) == Follower
    ensures Setup(followPort, allocPort, followRequested, followMapped,
                  Setup(allocPort, followPort, requested, allocMapped, ignored).value)
            == Setup(allocPort, followPort, requested, allocMapped, ignored)
  {
  }

  // ---------------------------------------------------------------------
  // MSI transitions
  // ---------------------------------------------------------------------

  /** Lines 73-76 and 237-240: fetching a page (simulated) moves INVALID
      to SHARED and leaves SHARED and MODIFIED as they are. */
  function Fetch(s: MSIState): (t: MSIState)
    ensures t != Invalid
    ensures s != Invalid ==> t == s
    ensures t == Modified ==> s == Modified
  {
    if s == Invalid then Shared else s
  }

  /** The directory after a fetch of page `p`: only that page's state
      changes, and only when `p` indexes the directory. */
  function FetchAt(s: seq<MSIState>, p: int): (r: seq<MSIState>)
    ensures |r| == |s|
    ensures forall i :: 0 <= i < |s| ==> r[i] == (if i == p then Fetch(s[i]) else s[i])
  {
    if 0 <= p < |s| then s[p := Fetch(s[p])] else s
  }

  /** The directory after `w` on page `p` (line 255): that page becomes
      MODIFIED whatever it was, and nothing else changes. */
  function ModifyAt(s: seq<MSIState>, p: int): (r: seq<MSIState>)
    ensures |r| == |s|
    ensures forall i :: 0 <= i < |s| ==> r[i] == (if i == p then Modified else s[i])
  {
    if 0 <= p < |s| then s[p := Modified] else s
  }

  /** A fetch never creates a MODIFIED page, creates no INVALID one at the
      fetched page, and fetching twice is fetching once. */
  lemma {:induction false} FetchAtProperties(s: seq<MSIState>, p: int)
    ensures forall i :: 0 <= i < |s| && FetchAt(s, p)[i] == Modified ==> s[i] == Modified
    ensures 0 <= p < |s| ==> FetchAt(s, p)[p] != Invalid
    ensures FetchAt(FetchAt(s, p), p) == FetchAt(s, p)
  {
    var r := FetchAt(s, p);
    var rr := FetchAt(r, p);
    assert |rr| == |r|;
    forall i | 0 <= i < |r| ensures rr[i] == r[i] {
      if i == p {
        assert r[i] == Fetch(s[i]);
        assert Fetch(Fetch(s[i])) == Fetch(s[i]);
      }
    }
  }

  /** A written page stays MODIFIED when it is read or faults again. */
  lemma {:induction false} ModifiedStays(s: seq<MSIState>, p: int)
    requires 0 <= p < |s|
    ensures FetchAt(ModifyAt(s, p), p) == ModifyAt(s, p)
    ensures FetchAt(ModifyAt(s, p), p)[p] == Modified
  {
    var m := ModifyAt(s, p);
    assert m[p] == Modified;
    var f := FetchAt(m, p);
    assert |f| == |m|;
    forall i | 0 <= i < |m| ensures f[i] == m[i] {
      if i == p {
        assert Fetch(m[i]) == m[i];
      }
    }
  }

  // ---------------------------------------------------------------------
  // Page bytes
  // ---------------------------------------------------------------------

  /** The `PAGESIZE` bytes of page `q` of the region `m`. */
  function PageOf(m: seq<byte>, q: nat): (r: seq<byte>)
    requires (q + 1) * 4096 <= |m|
    ensures |r| == 4096
    ensures forall i :: 0 <= i < 4096 ==> r[i] == m[q * 4096 + i]
  {
    m[q * 4096 .. (q + 1) * 4096]
  }

  /** The last byte of page `q`. */
  function LastByte(m: seq<byte>, q: nat): byte
    requires (q + 1) * 4096 <= |m|
  {
    m[q * 4096 + 4095]
  }

  /** Every one of the `n` pages of `m` ends in a NUL byte, so printing a
      page with `%s` stops inside it. */
  ghost predicate Terminated(m: seq<byte>, n: nat)
    requires |m| == n * 4096
  {
    forall q :: 0 <= q < n ==> LastByte(m, q) == 0
  }

  /** The length of the C string at the start of `s`: the index of its
      first NUL byte, or |s| when there is none. */
  function CLen(s: seq<byte>): (n: nat)
    ensures n <= |s|
    ensures forall i :: 0 <= i < n ==> s[i] != 0
    ensures n < |s| ==> s[n] == 0
  {
    if |s| == 0 || s[0] == 0 then 0 else 1 + CLen(s[1..])
  }

  /** The C string at the start of `s`, what `%s` prints. */
  function CString(s: seq<byte>): (r: seq<byte>)
    ensures 0 !in r
    ensures r <= s
    ensures |r| < |s| ==> s[|r|] == 0
  {
    s[..CLen(s)]
  }

  /** Any position that is NUL and preceded only by non-NUL bytes is where
      the C string ends. */
  lemma {:induction false} CLenAt(s: seq<byte>, k: nat)
    requires k < |s| && s[k] == 0
    requires forall i :: 0 <= i < k ==> s[i] != 0
    ensures CLen(s) == k
  {
    if k > 0 {
      assert s[0] != 0;
      CLenAt(s[1..], k - 1);
    }
  }

  /** `strncpy(dst, src, n)` as the bytes it leaves in dst[0, n): the
      string at the start of `src`, then NUL bytes up to `n`. */
  function Strncpy(src: seq<byte>, n: nat): (r: seq<byte>)
    ensures |r| == n
    ensures forall i :: 0 <= i < n ==> r[i] == (if i < CLen(src) then src[i] else 0)
  {
    var k := CLen(src);
    if n <= k then src[..n] else src[..k] + seq(n - k, _ => 0 as byte)
  }

  /** The region after `strncpy(addr + q * PAGESIZE, message, PAGESIZE - 1)`:
      the first 4095 bytes of page `q` take the message, padded with NUL
      bytes, and every other byte, the page's last one included, stays. */
  function WritePage(m: seq<byte>, q: nat, msg: seq<byte>): (r: seq<byte>)
    requires (q + 1) * 4096 <= |m|
    ensures |r| == |m|
    ensures forall i :: 0 <= i < |m| ==>
              r[i] == (if q * 4096 <= i < q * 4096 + 4095
                       then Strncpy(msg, 4095)[i - q * 4096] else m[i])
  {
    m[..q * 4096] + Strncpy(msg, 4095) + m[q * 4096 + 4095..]
  }

  /** The region after the `-1` loop of `w` has written its first `k`
      pages: each of them holds the padded message followed by its old
      last byte, and the bytes past them are unchanged. */
  function WriteAll(m: seq<byte>, k: nat, msg: seq<byte>): (r: seq<byte>)
    requires k * 4096 <= |m|
    ensures |r| == |m|
    ensures forall q :: 0 <= q < k ==> PageOf(r, q) == Strncpy(msg, 4095) + [LastByte(m, q)]
    ensures r[k * 4096..] == m[k * 4096..]
    decreases k
  {
    if k == 0 then m else WritePageOver(WriteAll(m, k - 1, msg), m, k - 1, msg)
  }

  /** WritePage of page `q` over a region `w` that agrees with `m` from
      page `q` on and holds the message in its earlier pages. */
  function WritePageOver(w: seq<byte>, m: seq<byte>, q: nat, msg: seq<byte>): (r: seq<byte>)
    requires (q + 1) * 4096 <= |m| == |w|
    requires forall q' :: 0 <= q' < q ==> PageOf(w, q') == Strncpy(msg, 4095) + [LastByte(m, q')]
    requires w[q * 4096..] == m[q * 4096..]
    ensures r == WritePage(w, q, msg)
    ensures forall q' :: 0 <= q' <= q ==> PageOf(r, q') == Strncpy(msg, 4095) + [LastByte(m, q')]
    ensures r[(q + 1) * 4096..] == m[(q + 1) * 4096..]
  {
    var r := WritePage(w, q, msg);
    assert forall q' :: 0 <= q' < q ==> PageOf(r, q') == PageOf(w, q') by {
      forall q' | 0 <= q' < q ensures PageOf(r, q') == PageOf(w, q') {
        assert PageOf(r, q') == r[q' * 4096 .. (q' + 1) * 4096];
      }
    }
    assert m[q * 4096 + 4095] == w[q * 4096 + 4095] by {
      assert w[q * 4096..][4095] == m[q * 4096..][4095];
    }
    assert PageOf(r, q) == Strncpy(msg, 4095) + [LastByte(m, q)];
    assert r[(q + 1) * 4096..] == m[(q + 1) * 4096..] by {
      forall j | (q + 1) * 4096 <= j < |m| ensures r[j] == m[j] {
        assert w[q * 4096..][j - q * 4096] == m[q * 4096..][j - q * 4096];
      }
    }
    r
  }

  /** The region after UFFDIO_COPY of the handler's zero page onto page
      `q`: that page is all NUL bytes, the others are unchanged. */
  function ZeroPage(m: seq<byte>, q: nat): (r: seq<byte>)
    requires (q + 1) * 4096 <= |m|
    ensures |r| == |m|
    ensures forall i :: 0 <= i < |m| ==>
              r[i] == (if q * 4096 <= i < (q + 1) * 4096 then 0 else m[i])
  {
    m[..q * 4096] + seq(4096, _ => 0 as byte) + m[(q + 1) * 4096..]
  }

  /** The pages that hold data after `r` or `w` on page `p`: the command's
      accesses populate every page for `-1`, page `p` when it is in
      range, and none otherwise. */
  function TouchAt(s: seq<bool>, p: int): (r: seq<bool>)
    ensures |r| == |s|
    ensures forall i :: 0 <= i < |s| ==> r[i] == (p == -1 || i == p || s[i])
  {
    if p == -1 then seq(|s|, _ => true) else if 0 <= p < |s| then s[p := true] else s
  }

  /** A page written by `w` prints, with `%s`, as the message up to its
      first NUL byte: a message of at most 1023 bytes always fits. */
  lemma {:induction false} ShowWritten(msg: seq<byte>, last: byte)
    requires |msg| <= MSG_MAX
    ensures CString(Strncpy(msg, 4095) + [last]) == CString(msg)
  {
    var page := Strncpy(msg, 4095) + [last];
    var k := CLen(msg);
    assert page[k] == 0;
    forall i | 0 <= i < k ensures page[i] != 0 {
      assert page[i] == msg[i];
    }
    CLenAt(page, k);
    assert page[..k] == msg[..k];
  }

  /** Writing a page and zeroing one keep every page NUL-terminated. */
  lemma {:induction false} WritesKeepTerminated(m: seq<byte>, n: nat, q: nat, msg: seq<byte>)
    requires |m| == n * 4096 && q < n && Terminated(m, n)
    ensures Terminated(WritePage(m, q, msg), n)
    ensures Terminated(ZeroPage(m, q), n)
  {
    var w, z := WritePage(m, q, msg), ZeroPage(m, q);
    forall q' | 0 <= q' < n ensures LastByte(w, q') == 0 && LastByte(z, q') == 0 {
      assert LastByte(m, q') == 0;
      if q' < q {
        assert q' * 4096 + 4095 < q * 4096;
      } else if q' > q {
        assert q' * 4096 >= (q + 1) * 4096;
      }
    }
  }

  /** The `-1` write keeps every page NUL-terminated. */
  lemma {:induction false} WriteAllKeepsTerminated(m: seq<byte>, n: nat, msg: seq<byte>)
    requires |m| == n * 4096 && Terminated(m, n)
    ensures Terminated(WriteAll(m, n, msg), n)
  {
    var w := WriteAll(m, n, msg);
    forall q | 0 <= q < n ensures LastByte(w, q) == 0 {
      assert LastByte(m, q) == 0;
      assert PageOf(w, q)[4095] == LastByte(m, q);
    }
  }

  // ---------------------------------------------------------------------
  // One process
  // ---------------------------------------------------------------------

  /** What a command prints: pages as C strings, the directory, or
      "Invalid command!". */
  datatype Reply = Pages(shown: seq<seq<byte>>) | States(states: seq<MSIState>) | InvalidCommand

  /**
   * One process after the handshake: the region mapped at `base`
   * (`addr`), its MSI directory (`msi_array`) and the fault handler's
   * zero page. Byte i of `addr` is the byte at address base + i, and
   * `present[q]` says whether page q already holds data, which is what
   * UFFDIO_COPY refuses to overwrite.
   */
  class Session {
    const base: Addr
    const numPages: nat
    const msi: array<MSIState>
    const addr: array<byte>
    const page: array<byte>
    const present: array<bool>

    /** The directory has one entry per page, the region is page-aligned
        and fits in the address space, the handler's page is a separate
        page of NUL bytes, and every page of the region ends in NUL. */
    ghost predicate Valid()
      reads this, addr, page
    {
      && msi.Length == numPages
      && present.Length == numPages
      && addr.Length == numPages * 4096
      && page.Length == 4096
      && addr != page
      && base % 4096 == 0
      && base + addr.Length <= 0x1_0000_0000_0000_0000
      && (forall i :: 0 <= i < 4096 ==> page[i] == 0)
      && Terminated(addr[..], numPages)
    }

    /** Lines 220-223 with the handler's page of lines 34-39: the region
        (anonymous memory, so all NUL bytes) at `base`, every page
        INVALID. */
    constructor (base: Addr, numPages: nat)
      requires base % 4096 == 0 && base + numPages * 4096 <= 0x1_0000_0000_0000_0000
      ensures Valid() && this.base == base && this.numPages == numPages
      ensures fresh(msi) && fresh(addr) && fresh(page) && fresh(present)
      ensures forall i :: 0 <= i < numPages ==> msi[i] == Invalid && !present[i]
      ensures forall i :: 0 <= i < addr.Length ==> addr[i] == 0
    {
      this.base := base;
      this.numPages := numPages;
      msi := new MSIState[numPages];
      addr := new byte[numPages * 4096](_ => 0);
      page := new byte[4096](_ => 0);
      present := new bool[numPages](_ => false);
      new;
      var i := 0;
      while i < numPages
        invariant 0 <= i <= numPages
        invariant forall j :: 0 <= j < i ==> msi[j] == Invalid
        invariant forall j :: 0 <= j < addr.Length ==> addr[j] == 0
        invariant forall j :: 0 <= j < 4096 ==> page[j] == 0
        invariant forall j :: 0 <= j < numPages ==> !present[j]
      {
        msi[i] := Invalid;
        i := i + 1;
      }
      assert forall q :: 0 <= q < numPages ==> LastByte(addr[..], q) == 0;
    }

    /** The page index the handler computes for a fault at `a` (line 71):
        the distance from the base, as an unsigned subtraction, divided
        by the page size. */
    function PageIndex(a: Addr): (p: nat)
      reads this
      ensures base <= a ==> p * 4096 <= a - base < p * 4096 + 4096
    {
      ((a - base) % 0x1_0000_0000_0000_0000) / 4096
    }

    /** A fault address inside the region has the page index of the page
        that holds it, and its page-aligned address starts that page; an
        address outside has an index past the directory. */
    lemma {:induction false} PageIndexInRegion(a: Addr)
      requires Valid()
      ensures PageIndex(a) < numPages <==> base <= a < base + addr.Length
      ensures PageIndex(a) < numPages ==> AlignDown(a) == base + PageIndex(a) * 4096
    {
      if a < base {
        assert (a - base) % 0x1_0000_0000_0000_0000 == a - base + 0x1_0000_0000_0000_0000;
        assert (a - base) % 0x1_0000_0000_0000_0000 >= numPages * 4096;
      } else {
        assert (a - base) % 0x1_0000_0000_0000_0000 == a - base;
        AlignedPageStart(base, a);
      }
    }

    /**
     * One pass of the handler's loop (lines 41-89). Anything but a page
     * fault ends the process. A fault on page p fetches it into SHARED
     * (INVALID becomes SHARED, the other states stay, even on a write
     * fault), then installs the zero page at the fault address rounded
     * down to its page. UFFDIO_COPY refuses a page that already holds
     * data, and the process then exits (lines 85-88) with the page's bytes
     * kept, after the fetch of lines 73-76 has already happened. A fault
     * outside the region ends the process with nothing changed.
     */
    method HandleFault(ev: Event) returns (out: Outcome)
      requires Valid()
      modifies msi, addr, present
      ensures Valid()
      ensures !ev.PageFault? ==>
                out == Fatal && msi[..] == old(msi[..]) && addr[..] == old(addr[..]) && present[..] == old(present[..])
      ensures ev.PageFault? && PageIndex(ev.address) >= numPages ==>
                out == Fatal && msi[..] == old(msi[..]) && addr[..] == old(addr[..]) && present[..] == old(present[..])
      ensures ev.PageFault? && PageIndex(ev.address) < numPages ==>
                msi[..] == FetchAt(old(msi[..]), PageIndex(ev.address))
      ensures ev.PageFault? && PageIndex(ev.address) < numPages && old(present[PageIndex(ev.address)]) ==>
                out == Fatal && addr[..] == old(addr[..]) && present[..] == old(present[..])
      ensures ev.PageFault? && PageIndex(ev.address) < numPages && !old(present[PageIndex(ev.address)]) ==>
                var p := PageIndex(ev.address);
                && out == Installed(AlignDown(ev.address))
                && out.dst == base + p * 4096
                && addr[..] == ZeroPage(old(addr[..]), p)
                && present[..] == old(present[..])[p := true]
    {
      if !ev.PageFault? {
        return Fatal;
      }
      var p := ((ev.address - base) % 0x1_0000_0000_0000_0000) / 4096;
      if p >= numPages {
        return Fatal;
      }
      PageIndexInRegion(ev.address);
      ghost var states := msi[..];
      if msi[p] == Invalid {
        msi[p] := Shared;
      }
      assert msi[..] == FetchAt(states, p);
      if present[p] {
        return Fatal;
      }
      var dst := AlignDown(ev.address);
      InstallPage(p);
      present[p] := true;
      return Installed(dst);
    }

    /** UFFDIO_COPY of the handler's page onto page `p` (lines 78-88). */
    method InstallPage(p: nat)
      requires Valid() && p < numPages
      modifies addr
      ensures Valid()
      ensures addr[..] == ZeroPage(old(addr[..]), p)
    {
      var off := p * 4096;
      for i := 0 to 4096
        invariant forall j :: 0 <= j < addr.Length ==>
                    addr[j] == if off <= j < off + i then 0 else old(addr[j])
      {
        addr[off + i] := page[i];
      }
      assert addr[..] == ZeroPage(old(addr[..]), p);
      WritesKeepTerminated(old(addr[..]), numPages, p, []);
    }

    /** `strncpy(addr + q * PAGESIZE, message, PAGESIZE - 1)`: copy the
        message up to its first NUL byte, then pad with NUL bytes. */
    method CopyMessage(q: nat, msg: seq<byte>)
      requires Valid() && q < numPages
      modifies addr
      ensures Valid()
      ensures addr[..] == WritePage(old(addr[..]), q, msg)
    {
      var off := q * 4096;
      ghost var text := Strncpy(msg, 4095);
      var i := 0;
      while i < 4095 && i < |msg| && msg[i] != 0
        invariant 0 <= i <= 4095 && i <= |msg|
        invariant forall j :: 0 <= j < i ==> msg[j] != 0
        invariant forall j :: 0 <= j < addr.Length ==>
                    addr[j] == if off <= j < off + i then text[j - off] else old(addr[j])
      {
        assert i < CLen(msg);
        addr[off + i] := msg[i];
        i := i + 1;
      }
      while i < 4095
        invariant 0 <= i <= 4095
        invariant i < 4095 ==> CLen(msg) <= i
        invariant forall j :: 0 <= j < addr.Length ==>
                    addr[j] == if off <= j < off + i then text[j - off] else old(addr[j])
      {
        addr[off + i] := 0;
        i := i + 1;
      }
      assert addr[..] == WritePage(old(addr[..]), q, msg);
      WritesKeepTerminated(old(addr[..]), numPages, q, msg);
    }

    /** What `printf("%s", addr + q * PAGESIZE)` shows. */
    function Show(q: nat): (s: seq<byte>)
      requires Valid() && q < numPages
      reads this, addr, page
      ensures |s| < 4096
      ensures s == CString(PageOf(addr[..], q))
    {
      assert PageOf(addr[..], q)[4095] == LastByte(addr[..], q) == 0;
      CString(addr[q * 4096 .. (q + 1) * 4096])
    }

    /**
     * `r` on page `p` (lines 236-247): an in-range page is fetched
     * (INVALID becomes SHARED, the others stay; never MODIFIED) and
     * printed; `-1` prints every page; other pages are not touched. The
     * bytes never change, and the printed pages now hold data.
     */
    method CommandRead(p: int) returns (shown: seq<seq<byte>>)
      requires Valid()
      modifies msi, present
      ensures Valid()
      ensures msi[..] == FetchAt(old(msi[..]), p)
      ensures present[..] == TouchAt(old(present[..]), p)
      ensures p == -1 ==> |shown| == numPages && forall q :: 0 <= q < numPages ==> shown[q] == Show(q)
      ensures 0 <= p < numPages ==> shown == [Show(p)]
      ensures p < -1 || numPages <= p ==> shown == []
    {
      ghost var states := msi[..];
      if 0 <= p < numPages {
        if msi[p] == Invalid {
          msi[p] := Shared;
        }
      }
      assert msi[..] == FetchAt(states, p);
      shown := [];
      if p == -1 {
        var i := 0;
        while i < numPages
          invariant 0 <= i <= numPages
          invariant |shown| == i && forall q :: 0 <= q < i ==> shown[q] == Show(q)
          invariant forall q :: 0 <= q < numPages ==> present[q] == (q < i || old(present[q]))
          invariant msi[..] == FetchAt(states, p)
        {
          present[i] := true;
          shown := shown + [Show(i)];
          i := i + 1;
        }
      } else if 0 <= p < numPages {
        present[p] := true;
        shown := [Show(p)];
      }
      assert present[..] == TouchAt(old(present[..]), p);
    }

    /**
     * `w` of `msg` on page `p` (lines 248-264): an in-range page becomes
     * MODIFIED whatever it was and its first 4095 bytes take the message,
     * padded with NUL bytes; `-1` writes every page and leaves the
     * directory alone; other pages are not touched. Every written page
     * prints as the message up to its first NUL byte and now holds data.
     */
    method CommandWrite(p: int, msg: seq<byte>) returns (shown: seq<seq<byte>>)
      requires Valid() && |msg| <= MSG_MAX
      modifies msi, addr, present
      ensures Valid()
      ensures msi[..] == ModifyAt(old(msi[..]), p)
      ensures present[..] == TouchAt(old(present[..]), p)
      ensures p == -1 ==> addr[..] == WriteAll(old(addr[..]), numPages, msg)
      ensures 0 <= p < numPages ==> addr[..] == WritePage(old(addr[..]), p, msg)
      ensures p < -1 || numPages <= p ==> addr[..] == old(addr[..])
      ensures p == -1 ==> |shown| == numPages && forall q :: 0 <= q < numPages ==> shown[q] == CString(msg)
      ensures 0 <= p < numPages ==> shown == [CString(msg)]
      ensures p < -1 || numPages <= p ==> shown == []
    {
      SetModified(p);
      if p == -1 {
        shown := WriteEveryPage(msg);
      } else if 0 <= p < numPages {
        var s := WriteOnePage(p, msg);
        shown := [s];
      } else {
        shown := [];
      }
      assert present[..] == TouchAt(old(present[..]), p);
    }

    /** Line 255 for an in-range page; any other index is left alone. */
    method SetModified(p: int)
      requires Valid()
      modifies msi
      ensures msi[..] == ModifyAt(old(msi[..]), p)
    {
      if 0 <= p < numPages {
        msi[p] := Modified;
      }
    }

    /** The `-1` loop of `w` (lines 256-260): every page takes the
        message and prints it. */
    method WriteEveryPage(msg: seq<byte>) returns (shown: seq<seq<byte>>)
      requires Valid() && |msg| <= MSG_MAX
      modifies addr, present
      ensures Valid()
      ensures addr[..] == WriteAll(old(addr[..]), numPages, msg)
      ensures forall q :: 0 <= q < numPages ==> present[q]
      ensures |shown| == numPages && forall q :: 0 <= q < numPages ==> shown[q] == CString(msg)
    {
      ghost var bytes := addr[..];
      assert addr[..] == WriteAll(bytes, 0, msg);
      shown := [];
      var i := 0;
      while i < numPages
        invariant 0 <= i <= numPages && Valid()
        invariant addr[..] == WriteAll(bytes, i, msg)
        invariant |shown| == i && forall q :: 0 <= q < i ==> shown[q] == CString(msg)
        invariant forall q :: 0 <= q < i ==> present[q]
      {
        var s := WriteNext(i, msg, bytes);
        shown := shown + [s];
        i := i + 1;
      }
    }

    /** Step `i` of the `-1` loop of `w`: page `i` takes the message and
        prints as it. */
    method WriteNext(i: nat, msg: seq<byte>, ghost bytes: seq<byte>) returns (s: seq<byte>)
      requires Valid() && i < numPages && |bytes| == addr.Length && |msg| <= MSG_MAX
      requires addr[..] == WriteAll(bytes, i, msg)
      modifies addr, present
      ensures Valid()
      ensures addr[..] == WriteAll(bytes, i + 1, msg)
      ensures present[..] == old(present[..])[i := true]
      ensures s == CString(msg)
    {
      CopyMessage(i, msg);
      present[i] := true;
      assert PageOf(addr[..], i) == Strncpy(msg, 4095) + [LastByte(bytes, i)];
      ShowWritten(msg, LastByte(bytes, i));
      s := Show(i);
    }

    /** Lines 261-263: page `p` takes the message and prints as it. */
    method WriteOnePage(p: nat, msg: seq<byte>) returns (s: seq<byte>)
      requires Valid() && p < numPages && |msg| <= MSG_MAX
      modifies addr, present
      ensures Valid()
      ensures addr[..] == WritePage(old(addr[..]), p, msg)
      ensures present[..] == old(present[..])[p := true]
      ensures s == CString(msg)
    {
      ghost var bytes := addr[..];
      CopyMessage(p, msg);
      present[p] := true;
      assert PageOf(addr[..], p) == Strncpy(msg, 4095) + [LastByte(bytes, p)];
      ShowWritten(msg, LastByte(bytes, p));
      s := Show(p);
    }

    /** `v` (lines 265-270): the state of every page, in page order. */
    method View() returns (states: seq<MSIState>)
      requires Valid()
      ensures states == msi[..]
    {
      states := [];
      var i := 0;
      while i < numPages
        invariant 0 <= i <= numPages
        invariant states == msi[..i]
      {
        states := states + [msi[i]];
        i := i + 1;
      }
    }

    /**
     * One pass of the command loop (lines 227-274) after `cmd`, the page
     * number and, for `w`, the message were read: `r`, `w` and `v` as
     * above; any other command prints "Invalid command!". Only `r` and
     * `w` change anything.
     */
    method Dispatch(cmd: char, p: int, msg: seq<byte>) returns (reply: Reply)
      requires Valid() && |msg| <= MSG_MAX
      modifies msi, addr, present
      ensures Valid()
      ensures cmd == 'r' || cmd == 'w' ==> present[..] == TouchAt(old(present[..]), p)
      ensures cmd == 'r' ==> reply.Pages? && msi[..] == FetchAt(old(msi[..]), p) && addr[..] == old(addr[..])
      ensures cmd == 'r' && p == -1 ==>
                |reply.shown| == numPages && forall q :: 0 <= q < numPages ==> reply.shown[q] == Show(q)
      ensures cmd == 'r' && 0 <= p < numPages ==> reply.shown == [Show(p)]
      ensures cmd == 'w' ==> reply.Pages? && msi[..] == ModifyAt(old(msi[..]), p)
      ensures cmd == 'w' && p == -1 ==> addr[..] == WriteAll(old(addr[..]), numPages, msg)
      ensures cmd == 'w' && 0 <= p < numPages ==> addr[..] == WritePage(old(addr[..]), p, msg)
      ensures cmd == 'w' && p == -1 ==>
                |reply.shown| == numPages && forall q :: 0 <= q < numPages ==> reply.shown[q] == CString(msg)
      ensures cmd == 'w' && 0 <= p < numPages ==> reply.shown == [CString(msg)]
      ensures (cmd == 'r' || cmd == 'w') && (p < -1 || numPages <= p) ==> reply.shown == []
      ensures cmd == 'w' && (p < -1 || numPages <= p) ==> addr[..] == old(addr[..])
      ensures cmd == 'v' ==> reply == States(msi[..])
      ensures cmd != 'r' && cmd != 'w' && cmd != 'v' ==> reply == InvalidCommand
      ensures cmd != 'r' && cmd != 'w' ==>
                msi[..] == old(msi[..]) && addr[..] == old(addr[..]) && present[..] == old(present[..])
    {
      if cmd == 'r' {
        var shown := CommandRead(p);
        reply := Pages(shown);
      } else if cmd == 'w' {
        var shown := CommandWrite(p, msg);
        reply := Pages(shown);
      } else if cmd == 'v' {
        var states := View();
        reply := States(states);
      } else {
        reply := InvalidCommand;
      }
    }
  }
}
