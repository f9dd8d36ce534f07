/**
 * The userfaultfd demonstration of
 * SuperSimpleDistributedSharedMemory/Part1/uffd/uffd.c: a region of
 * `num-pages` pages registered for missing-page faults, a handler that
 * answers the k-th fault by filling a page with 'A' + k % 20 and copying
 * it to the faulting page, and a main program that reads and writes the
 * region in 1024-byte steps, discarding it twice with MADV_DONTNEED.
 */
module Uffd {
  import opened Memory

  // main steps through the region `l += 1024` at a time: four steps per
  // 4096-byte page.

  /** The bytes main writes in [U5] and [U7]. */
  const AT: byte := '@' as int as byte
  const CARET: byte := '^' as int as byte

  /** The byte the handler fills its page with on fault number `k`
      (counting from 0): 'A' + k % 20, so always one of 'A'..'T'. */
  function Pattern(k: nat): (c: byte)
    ensures 'A' as int <= c as int <= 'T' as int
    ensures c as int == 'A' as int + k % 20
  {
    ('A' as int + k % 20) as byte
  }

  /** The number of missing pages in `s`. */
  function Missing(s: seq<bool>): (n: nat)
    ensures n <= |s|
  {
    if s == [] then 0 else Missing(s[..|s| - 1]) + (if s[|s| - 1] then 0 else 1)
  }

  /** With no page present, every page is missing. */
  lemma {:induction false} MissingAll(s: seq<bool>)
    requires forall i :: 0 <= i < |s| ==> !s[i]
    ensures Missing(s) == |s|
  {
    if s != [] {
      MissingAll(s[..|s| - 1]);
    }
  }

  /** With every page present, none is missing. */
  lemma {:induction false} MissingNone(s: seq<bool>)
    requires forall i :: 0 <= i < |s| ==> s[i]
    ensures Missing(s) == 0
  {
    if s != [] {
      MissingNone(s[..|s| - 1]);
    }
  }

  /** The number of missing pages among the first n + 1. */
  lemma MissingStep(s: seq<bool>, n: nat)
    requires n < |s|
    ensures Missing(s[..n + 1]) == Missing(s[..n]) + (if s[n] then 0 else 1)
  {
    assert s[..n + 1][..n] == s[..n];
  }

  /** The region's bytes after main has touched its first `n` pages in
      order, starting with fault counter `k`: each page that was missing
      holds the pattern of the fault it caused, every other byte is as it
      was. */
  function Touched(mem: seq<byte>, present: seq<bool>, k: nat, n: nat): (r: seq<byte>)
    requires |mem| == |present| * 4096 && n <= |present|
    ensures |r| == |mem|
    ensures n == 0 ==> r == mem
  {
    seq(|mem|, i requires 0 <= i < |mem| =>
      if i / 4096 < n && !present[i / 4096] then Pattern(k + Missing(present[..i / 4096]))
      else mem[i])
  }

  /** Touching one more page changes that page alone, and only if it was
      missing. */
  lemma TouchedStep(mem: seq<byte>, present: seq<bool>, k: nat, n: nat, i: nat)
    requires |mem| == |present| * 4096 && n < |present| && i < |mem|
    ensures Touched(mem, present, k, n + 1)[i]
         == if i / 4096 == n && !present[n] then Pattern(k + Missing(present[..n]))
            else Touched(mem, present, k, n)[i]
  {
  }

  /** Touching every page of a region where all pages are missing gives
      page p the pattern of fault k + p. */
  lemma TouchedAllMissing(mem: seq<byte>, present: seq<bool>, k: nat, i: nat)
    requires |mem| == |present| * 4096 && i < |mem|
    requires forall q :: 0 <= q < |present| ==> !present[q]
    ensures Touched(mem, present, k, |present|)[i] == Pattern(k + i / 4096)
  {
    MissingAll(present[..i / 4096]);
  }

  /** Touching a region whose pages are all present changes nothing. */
  lemma TouchedAllPresent(mem: seq<byte>, present: seq<bool>, k: nat)
    requires |mem| == |present| * 4096
    requires forall q :: 0 <= q < |present| ==> present[q]
    ensures Touched(mem, present, k, |present|) == mem
  {
  }

  /** Byte offsets and page indices. */
  lemma PageBounds(p: nat, i: nat)
    ensures (i / 4096 == p) <==> (p * 4096 <= i < p * 4096 + 4096)
  {
  }

  /** The step of main's loops, in pages: the first step into a page
      starts it, the other three stay inside it. */
  lemma ChunkStep(l: nat)
    requires l % 1024 == 0
    ensures l % 4096 == 0 ==> (l + 4096 - 1) / 4096 == l / 4096
    ensures (l + 1024 + 4096 - 1) / 4096 == l / 4096 + 1
    ensures l % 4096 != 0 ==> (l + 4096 - 1) / 4096 == l / 4096 + 1
    ensures l + 1024 <= (l / 4096 + 1) * 4096
    ensures (l + 1024) % 1024 == 0 && (l + 1024) / 1024 == l / 1024 + 1
    ensures (l / 1024) * 1024 == l
  {
    var t := l / 1024;
    assert l == 1024 * t;
    var q, r := t / 4, t % 4;
    assert l == 4096 * q + 1024 * r && 0 <= r < 4;
    DivPage(l, q);
    DivPage(l + 1024 + 4095, q + 1);
    if r == 0 {
      DivPage(l + 4095, q);
    } else {
      DivPage(l + 4095, q + 1);
    }
  }

  /** The quotient of `x` by a page is the `q` with q * 4096 <= x < q * 4096 + 4096. */
  lemma DivPage(x: int, q: int)
    requires 4096 * q <= x < 4096 * q + 4096
    ensures x / 4096 == q
  {
  }

  /** The bytes a read pass samples: byte j * 1024 for each of its first
      `c` steps. */
  function Samples(m: seq<byte>, c: nat): (r: seq<byte>)
    requires c * 1024 <= |m|
    ensures |r| == c
  {
    seq(c, j requires 0 <= j < c => m[j * 1024])
  }

  /** Step j of the samples is byte j * 1024. */
  lemma SamplesAt(m: seq<byte>, c: nat, j: nat)
    requires c * 1024 <= |m| && j < c
    ensures j * 1024 < |m| && Samples(m, c)[j] == m[j * 1024]
  {
  }

  /** Step `l` of a read pass samples byte `l`. */
  lemma SamplesStep(m: seq<byte>, l: nat)
    requires l % 1024 == 0 && l + 1024 <= |m|
    ensures (l + 1024) / 1024 * 1024 <= |m| && l / 1024 * 1024 <= |m|
    ensures Samples(m, (l + 1024) / 1024) == Samples(m, l / 1024) + [m[l]]
  {
    ChunkStep(l);
  }

  /** A pass over n whole pages ends having touched all n. */
  lemma CeilPages(n: nat)
    ensures (n * 4096 + 4096 - 1) / 4096 == n
  {
  }

  /** Step j of main's loops reads byte j * 1024, which lies in page j / 4. */
  lemma ChunkPage(j: nat)
    ensures (j * 1024) / 4096 == j / 4
  {
  }

  /** The bytes after an access to page `p` with fault counter `k`: a
      missing page is refilled with the pattern of fault k, a present one
      is left alone. */
  function TouchPage(mem: seq<byte>, present: seq<bool>, k: nat, p: nat): (r: seq<byte>)
    requires p < |present|
    ensures |r| == |mem|
  {
    seq(|mem|, i requires 0 <= i < |mem| =>
      if !present[p] && i / 4096 == p then Pattern(k) else mem[i])
  }

  /** Which pages are present once the first `n` have been touched. */
  function PresentAfter(present: seq<bool>, n: nat): (r: seq<bool>)
    ensures |r| == |present|
    ensures forall q :: 0 <= q < |present| ==> r[q] == (q < n || present[q])
  {
    seq(|present|, q requires 0 <= q < |present| => q < n || present[q])
  }

  /** `mem` with its first `l` bytes set to `c`. */
  function Overwrite(mem: seq<byte>, l: nat, c: byte): (r: seq<byte>)
    ensures |r| == |mem|
    ensures forall i :: 0 <= i < |mem| ==> r[i] == if i < l then c else mem[i]
  {
    seq(|mem|, i requires 0 <= i < |mem| => if i < l then c else mem[i])
  }

  /** `mem` with the 1024 bytes from `l` on set to `c`. */
  function SetChunkOf(mem: seq<byte>, l: nat, c: byte): (r: seq<byte>)
    ensures |r| == |mem|
    ensures forall i :: 0 <= i < |mem| ==> r[i] == if l <= i < l + 1024 then c else mem[i]
  {
    seq(|mem|, i requires 0 <= i < |mem| => if l <= i < l + 1024 then c else mem[i])
  }

  /** Bytes of pages already touched keep their value for the rest of a
      pass. */
  lemma TouchedPrefix(mem: seq<byte>, present: seq<bool>, k: nat, n: nat, i: nat)
    requires |mem| == |present| * 4096 && n <= |present| && i < |mem| && i / 4096 < n
    ensures Touched(mem, present, k, n)[i] == Touched(mem, present, k, |present|)[i]
  {
  }

  /** One step `l` of a pass over a region, in terms of the pass's start
      state: before the step the first ceil(l / 4096) pages have been
      touched, after it ceil((l + 1024) / 4096). */
  lemma PassStep(mem: seq<byte>, present: seq<bool>, k: nat, l: nat)
    requires |mem| == |present| * 4096 && l < |mem| && l % 1024 == 0
    ensures var n := (l + 4096 - 1) / 4096;
            var n' := (l + 1024 + 4096 - 1) / 4096;
            var p := l / 4096;
            && l + 1024 <= |mem|
            && n <= n' <= |present| && p < n'
            && (n' == n + 1 ==> l == p * 4096)
            && TouchPage(Touched(mem, present, k, n), PresentAfter(present, n), k + Missing(present[..n]), p)
               == Touched(mem, present, k, n')
            && PresentAfter(present, n)[p := true] == PresentAfter(present, n')
            && k + Missing(present[..n]) + (if PresentAfter(present, n)[p] then 0 else 1)
               == k + Missing(present[..n'])
  {
    ChunkStep(l);
    var n := (l + 4096 - 1) / 4096;
    var n' := (l + 1024 + 4096 - 1) / 4096;
    var p := l / 4096;
    assert l + 1024 <= |mem|;
    var before := Touched(mem, present, k, n);
    var after := TouchPage(before, PresentAfter(present, n), k + Missing(present[..n]), p);
    if n' == n + 1 {
      MissingStep(present, n);
      forall i | 0 <= i < |mem| ensures after[i] == Touched(mem, present, k, n')[i] {
        TouchedStep(mem, present, k, n, i);
      }
    } else {
      assert after == before;
    }
  }

  /** One step of a write pass: the access faults the page in, then the
      step's 1024 bytes are set. */
  lemma WriteStep(mem: seq<byte>, present: seq<bool>, k: nat, l: nat, c: byte)
    requires |mem| == |present| * 4096 && l < |mem| && l % 1024 == 0
    ensures var n := (l + 4096 - 1) / 4096;
            var n' := (l + 1024 + 4096 - 1) / 4096;
            var p := l / 4096;
            TouchPage(Overwrite(Touched(mem, present, k, n), l, c), PresentAfter(present, n),
                      k + Missing(present[..n]), p)
            == Overwrite(Touched(mem, present, k, n'), l, c)
  {
    PassStep(mem, present, k, l);
    var n := (l + 4096 - 1) / 4096;
    var p := l / 4096;
    var t := Touched(mem, present, k, n);
    var pa := PresentAfter(present, n);
    var cnt := k + Missing(present[..n]);
    var lhs := TouchPage(Overwrite(t, l, c), pa, cnt, p);
    var rhs := Overwrite(TouchPage(t, pa, cnt, p), l, c);
    forall i | 0 <= i < |mem| ensures lhs[i] == rhs[i] {
      if !pa[p] && i / 4096 == p {
        assert p * 4096 <= i;
      }
    }
  }

  /** What main's loops can see of the process: the region, the present
      pages, the fault counter and the bytes read so far. */
  datatype PassView = PassView(mem: seq<byte>, present: seq<bool>, count: nat, seen: seq<byte>)

  /** A pass over `np` pages has entered at most all of them. */
  lemma CeilBound(l: nat, np: nat)
    requires l <= np * 4096
    ensures (l + 4096 - 1) / 4096 <= np
  {
  }

  /** Before step `l` of a read pass from `mem0`, `pres0` and counter `k`:
      the pages it has entered are touched, present and counted, and it
      has read the bytes the pass leaves at its earlier steps. */
  ghost function ReadExpected(mem0: seq<byte>, pres0: seq<bool>, k: nat, l: nat): PassView
    requires |mem0| == |pres0| * 4096 && l % 1024 == 0 && l <= |mem0|
  {
    CeilBound(l, |pres0|);
    ChunkStep(l);
    var n := (l + 4096 - 1) / 4096;
    PassView(Touched(mem0, pres0, k, n), PresentAfter(pres0, n), k + Missing(pres0[..n]),
             Samples(Touched(mem0, pres0, k, |pres0|), l / 1024))
  }

  /** A read pass from `mem0`, `pres0` and `k` stands before step `l` and
      sees `v`. */
  ghost predicate ReadFacts(mem0: seq<byte>, pres0: seq<bool>, k: nat, l: nat, v: PassView)
  {
    && |mem0| == |pres0| * 4096 && l % 1024 == 0 && l <= |mem0|
    && v == ReadExpected(mem0, pres0, k, l)
  }

  /** A read pass starts with nothing touched and nothing read. */
  lemma ReadStart(mem0: seq<byte>, pres0: seq<bool>, k: nat)
    requires |mem0| == |pres0| * 4096
    ensures ReadFacts(mem0, pres0, k, 0, PassView(mem0, pres0, k, []))
  {
    assert pres0[..0] == [];
    assert Touched(mem0, pres0, k, 0) == mem0;
    assert PresentAfter(pres0, 0) == pres0;
  }

  /** A read pass ends with every page touched, present and counted, and
      has read byte j * 1024 of the result at step j. */
  lemma ReadDone(mem0: seq<byte>, pres0: seq<bool>, k: nat, l: nat, v: PassView)
    requires ReadFacts(mem0, pres0, k, l, v) && l >= |mem0|
    ensures v.mem == Touched(mem0, pres0, k, |pres0|)
    ensures forall q :: 0 <= q < |v.present| ==> v.present[q]
    ensures v.count == k + Missing(pres0)
    ensures |v.seen| == |pres0| * 4
    ensures forall j :: 0 <= j < |v.seen| ==> j * 1024 < |v.mem| && v.seen[j] == v.mem[j * 1024]
  {
    CeilPages(|pres0|);
    assert pres0[..|pres0|] == pres0;
    ChunkStep(l);
    forall j | 0 <= j < |v.seen| ensures j * 1024 < |v.mem| && v.seen[j] == v.mem[j * 1024] {
      SamplesAt(v.mem, l / 1024, j);
    }
  }

  /** What one step `l` of a read pass makes of the view `v`: the access
      touches page l / 4096 and reads byte `l` of the result. */
  function ReadNext(v: PassView, l: nat): (w: PassView)
    requires l / 4096 < |v.present| && l < |v.mem|
    ensures |w.mem| == |v.mem| && |w.present| == |v.present| && |w.seen| == |v.seen| + 1
  {
    var p := l / 4096;
    var m := TouchPage(v.mem, v.present, v.count, p);
    PassView(m, v.present[p := true], v.count + (if v.present[p] then 0 else 1), v.seen + [m[l]])
  }

  /** A read step keeps the pass on course: after step `l` it stands
      before step l + 1024. */
  lemma ReadAdvance(mem0: seq<byte>, pres0: seq<bool>, k: nat, l: nat, v: PassView)
    requires ReadFacts(mem0, pres0, k, l, v) && l < |mem0|
    ensures l / 4096 < |v.present| && l < |v.mem|
    ensures ReadFacts(mem0, pres0, k, l + 1024, ReadNext(v, l))
  {
    ChunkStep(l);
    PassStep(mem0, pres0, k, l);
    ReadAdvanceSeen(mem0, pres0, k, l, v);
  }

  /** The byte a read step adds to what the pass has read. */
  lemma ReadAdvanceSeen(mem0: seq<byte>, pres0: seq<bool>, k: nat, l: nat, v: PassView)
    requires ReadFacts(mem0, pres0, k, l, v) && l < |mem0|
    ensures l / 4096 < |v.present| && l < |v.mem| && (l + 1024) / 1024 * 1024 <= |mem0|
    ensures ReadNext(v, l).seen == Samples(Touched(mem0, pres0, k, |pres0|), (l + 1024) / 1024)
  {
    var final := Touched(mem0, pres0, k, |pres0|);
    var n' := (l + 1024 + 4096 - 1) / 4096;
    ChunkStep(l);
    PassStep(mem0, pres0, k, l);
    SamplesStep(final, l);
    TouchedPrefix(mem0, pres0, k, n', l);
  }

  /** Before step `l` of a write pass of `c`: the pages it has entered are
      touched, present and counted, the bytes below `l` hold `c`, and it
      has read `c` at every earlier step. */
  ghost function WriteExpected(mem0: seq<byte>, pres0: seq<bool>, k: nat, c: byte, l: nat): PassView
    requires |mem0| == |pres0| * 4096 && l % 1024 == 0 && l <= |mem0|
  {
    CeilBound(l, |pres0|);
    var n := (l + 4096 - 1) / 4096;
    PassView(Overwrite(Touched(mem0, pres0, k, n), l, c), PresentAfter(pres0, n), k + Missing(pres0[..n]),
             seq(l / 1024, _ => c))
  }

  /** A write pass of `c` from `mem0`, `pres0` and `k` stands before step
      `l` and sees `v`. */
  ghost predicate WriteFacts(mem0: seq<byte>, pres0: seq<bool>, k: nat, c: byte, l: nat, v: PassView)
  {
    && |mem0| == |pres0| * 4096 && l % 1024 == 0 && l <= |mem0|
    && v == WriteExpected(mem0, pres0, k, c, l)
  }

  /** A write pass starts with nothing touched and nothing written. */
  lemma WriteStart(mem0: seq<byte>, pres0: seq<bool>, k: nat, c: byte)
    requires |mem0| == |pres0| * 4096
    ensures WriteFacts(mem0, pres0, k, c, 0, PassView(mem0, pres0, k, []))
  {
    assert pres0[..0] == [];
    assert Overwrite(Touched(mem0, pres0, k, 0), 0, c) == mem0;
    assert PresentAfter(pres0, 0) == pres0;
  }

  /** What one step `l` of a write pass of `c` makes of the view `v`: the
      access touches page l / 4096, then bytes l to l + 1023 are set to
      `c`, and `c` is read back. */
  function WriteNext(v: PassView, l: nat, c: byte): (w: PassView)
    requires l / 4096 < |v.present|
    ensures |w.mem| == |v.mem| && |w.present| == |v.present| && |w.seen| == |v.seen| + 1
  {
    var p := l / 4096;
    var m := TouchPage(v.mem, v.present, v.count, p);
    PassView(SetChunkOf(m, l, c), v.present[p := true], v.count + (if v.present[p] then 0 else 1), v.seen + [c])
  }

  /** A write step keeps the pass on course. */
  lemma WriteAdvance(mem0: seq<byte>, pres0: seq<bool>, k: nat, c: byte, l: nat, v: PassView)
    requires WriteFacts(mem0, pres0, k, c, l, v) && l < |mem0|
    ensures l / 4096 < |v.present| && l + 1024 <= |v.mem|
    ensures WriteFacts(mem0, pres0, k, c, l + 1024, WriteNext(v, l, c))
  {
    ChunkStep(l);
    PassStep(mem0, pres0, k, l);
    WriteAdvanceMem(mem0, pres0, k, c, l, v);
    FilledStep(l, c);
  }

  /** The bytes after a write step. */
  lemma WriteAdvanceMem(mem0: seq<byte>, pres0: seq<bool>, k: nat, c: byte, l: nat, v: PassView)
    requires WriteFacts(mem0, pres0, k, c, l, v) && l < |mem0|
    ensures l / 4096 < |v.present| && l + 1024 <= |v.mem|
    ensures WriteNext(v, l, c).mem == Overwrite(Touched(mem0, pres0, k, (l + 1024 + 4096 - 1) / 4096), l + 1024, c)
  {
    PassStep(mem0, pres0, k, l);
    WriteAdvanceTouch(mem0, pres0, k, c, l, v);
    SetChunkOverwrite(Touched(mem0, pres0, k, (l + 1024 + 4096 - 1) / 4096), l, c);
  }

  /** The access of a write step faults in the page it enters. */
  lemma WriteAdvanceTouch(mem0: seq<byte>, pres0: seq<bool>, k: nat, c: byte, l: nat, v: PassView)
    requires WriteFacts(mem0, pres0, k, c, l, v) && l < |mem0|
    ensures l / 4096 < |v.present| && (l + 1024 + 4096 - 1) / 4096 <= |pres0|
    ensures TouchPage(v.mem, v.present, v.count, l / 4096)
         == Overwrite(Touched(mem0, pres0, k, (l + 1024 + 4096 - 1) / 4096), l, c)
  {
    ChunkStep(l);
    WriteStep(mem0, pres0, k, l, c);
  }

  /** Setting the 1024 bytes from `l` on extends a prefix of `c`s by them. */
  lemma SetChunkOverwrite(m: seq<byte>, l: nat, c: byte)
    ensures SetChunkOf(Overwrite(m, l, c), l, c) == Overwrite(m, l + 1024, c)
  {
    var a, b := SetChunkOf(Overwrite(m, l, c), l, c), Overwrite(m, l + 1024, c);
    assert forall i :: 0 <= i < |m| ==> a[i] == b[i];
  }

  /** A write step reads `c` once more. */
  lemma FilledStep(l: nat, c: byte)
    requires l % 1024 == 0
    ensures seq((l + 1024) / 1024, _ => c) == seq(l / 1024, _ => c) + [c]
  {
    ChunkStep(l);
  }

  /** A write pass ends with every byte `c`, every page present and
      counted, and `c` read at every step. */
  lemma WriteDone(mem0: seq<byte>, pres0: seq<bool>, k: nat, c: byte, l: nat, v: PassView)
    requires WriteFacts(mem0, pres0, k, c, l, v) && l >= |mem0|
    ensures forall i :: 0 <= i < |v.mem| ==> v.mem[i] == c
    ensures forall q :: 0 <= q < |v.present| ==> v.present[q]
    ensures v.count == k + Missing(pres0)
    ensures |v.seen| == |pres0| * 4
    ensures forall j :: 0 <= j < |v.seen| ==> v.seen[j] == c
  {
    CeilPages(|pres0|);
    assert pres0[..|pres0|] == pres0;
    ChunkStep(l);
  }

  /**
   * The process: the region main mapped and registered, which pages of
   * it are present, the handler's fault counter and its one-page buffer.
   * Byte i of `mem` is the byte at address base + i.
   */
  class Region {
    const base: Addr
    const nPages: nat
    const mem: array<byte>
    const present: array<bool>
    const page: array<byte>
    var faultCnt: nat

    /** The region is num_pages * page_size bytes from a page-aligned
        address, registered exactly over [base, base + len); the handler's
        buffer is a separate page. */
    ghost predicate Valid()
    {
      && mem.Length == nPages * 4096
      && present.Length == nPages
      && page.Length == 4096
      && page != mem
      && base % 4096 == 0
      && base + mem.Length <= 0x1_0000_0000_0000_0000
    }

    /** What main can see of the process with `seen` read so far. */
    ghost function View(seen: seq<byte>): (v: PassView)
      reads this, mem, present
      ensures v.mem == mem[..] && v.present == present[..] && v.count == faultCnt && v.seen == seen
    {
      PassView(mem[..], present[..], faultCnt, seen)
    }

    /** [M2]-[M7]: map `nPages` pages at `base` (anonymous memory, every
        page missing), register them, and start the handler with no
        faults handled and its page mapped. */
    constructor (base: Addr, nPages: nat)
      requires base % 4096 == 0 && base + nPages * 4096 <= 0x1_0000_0000_0000_0000
      ensures Valid() && this.base == base && this.nPages == nPages
      ensures fresh(mem) && fresh(present) && fresh(page)
      ensures faultCnt == 0
      ensures forall q :: 0 <= q < nPages ==> !present[q]
    {
      this.base := base;
      this.nPages := nPages;
      mem := new byte[nPages * 4096](_ => 0);
      present := new bool[nPages](_ => false);
      page := new byte[4096](_ => 0);
      faultCnt := 0;
    }

    /** One pass of the handler's `for (;;)` loop, [H3]-[H10]. Anything
        but a page fault ends the process before the page is touched. A
        page fault fills the buffer with the next pattern, counts the
        fault, and asks UFFDIO_COPY to install the buffer at the faulting
        address rounded down to its page. The copy fails, ending the
        process, when that page lies outside the registered region or is
        already present; otherwise exactly that page becomes present and
        holds the pattern. */
    method HandleEvent(ev: Event) returns (out: Outcome)
      requires Valid()
      modifies this`faultCnt, page, mem, present
      ensures Valid()
      ensures !ev.PageFault? ==> out == Fatal && faultCnt == old(faultCnt) && page[..] == old(page[..])
      ensures ev.PageFault? ==> faultCnt == old(faultCnt) + 1
      ensures ev.PageFault? ==> forall i :: 0 <= i < 4096 ==> page[i] == Pattern(old(faultCnt))
      ensures ev.PageFault? ==>
                var dst := AlignDown(ev.address);
                (out == Installed(dst)) <==>
                  (base <= dst < base + mem.Length && !old(present[(dst - base) / 4096]))
      ensures out.Fatal? ==> mem[..] == old(mem[..]) && present[..] == old(present[..])
      ensures out.Installed? ==>
                var p := (out.dst - base) / 4096;
                && 0 <= p < nPages
                && present[..] == old(present[..])[p := true]
                && forall i :: 0 <= i < mem.Length ==>
                     mem[i] == if i / 4096 == p then Pattern(old(faultCnt)) else old(mem[i])
    {
      if !ev.PageFault? {
        return Fatal;
      }
      FillPage(Pattern(faultCnt));
      faultCnt := faultCnt + 1;
      var dst := AlignDown(ev.address);
      if dst < base || dst >= base + mem.Length {
        return Fatal;
      }
      AlignedPageStart(base, ev.address);
      var p := (dst - base) / 4096;
      assert dst - base == p * 4096;
      if present[p] {
        return Fatal;
      }
      CopyPage(p);
      present[p] := true;
      return Installed(dst);
    }

    /** [H7]: `memset(page, fill, page_size)`. */
    method FillPage(fill: byte)
      requires Valid()
      modifies page
      ensures forall i :: 0 <= i < 4096 ==> page[i] == fill
    {
      for i := 0 to 4096
        invariant forall j :: 0 <= j < i ==> page[j] == fill
      {
        page[i] := fill;
      }
    }

    /** The copy UFFDIO_COPY performs: page_size bytes of the buffer land
        on page `p`. */
    method CopyPage(p: nat)
      requires Valid() && p < nPages
      modifies mem
      ensures forall i :: 0 <= i < mem.Length ==>
                mem[i] == if i / 4096 == p then page[i - p * 4096] else old(mem[i])
    {
      var off := p * 4096;
      for i := 0 to 4096
        invariant forall j :: 0 <= j < mem.Length ==>
                    mem[j] == if off <= j < off + i then page[j - off] else old(mem[j])
      {
        mem[off + i] := page[i];
      }
      forall j | 0 <= j < mem.Length
        ensures (j / 4096 == p) == (off <= j < off + 4096)
      {
        PageBounds(p, j);
      }
    }

    /** An access by main to byte `l` of the region: a missing page faults,
        and the handler installs it (the fault address is inside the
        region and the page is missing, so the copy succeeds); a present
        page is used as it is. */
    method Touch(l: nat)
      requires Valid() && l < mem.Length
      modifies this`faultCnt, page, mem, present
      ensures Valid()
      ensures present[..] == old(present[..])[l / 4096 := true]
      ensures faultCnt == old(faultCnt) + (if old(present[l / 4096]) then 0 else 1)
      ensures mem[..] == TouchPage(old(mem[..]), old(present[..]), old(faultCnt), l / 4096)
    {
      var p := l / 4096;
      if !present[p] {
        AlignedPageStart(base, base + l);
        assert AlignDown(base + l) - base == p * 4096;
        var out := HandleEvent(PageFault(base + l));
        assert out == Installed(AlignDown(base + l));
        assert mem[..] == TouchPage(old(mem[..]), old(present[..]), old(faultCnt), p);
      } else {
        assert present[..] == old(present[..])[p := true];
        assert mem[..] == TouchPage(old(mem[..]), old(present[..]), old(faultCnt), p);
      }
    }

    /** The body of `memset(addr + l, c, 1024)` once the page is in. */
    method SetChunk(l: nat, c: byte)
      requires Valid() && l + 1024 <= mem.Length
      modifies mem
      ensures mem[..] == SetChunkOf(old(mem[..]), l, c)
    {
      for i := 0 to 1024
        invariant forall j :: 0 <= j < mem.Length ==> mem[j] == if l <= j < l + i then c else old(mem[j])
      {
        mem[l + i] := c;
      }
      assert mem[..] == SetChunkOf(old(mem[..]), l, c);
    }

    /** [U1]-[U4], [U6], [U8]: `char c = addr[l]` for l = 0, 1024, ... below
        len. Every missing page faults once, at its first step, in address
        order; present pages are read without a fault. What is read is the
        region after all of its pages have been touched. */
    method ReadPass() returns (seen: seq<byte>)
      requires Valid()
      modifies this`faultCnt, page, mem, present
      ensures Valid()
      ensures mem[..] == Touched(old(mem[..]), old(present[..]), old(faultCnt), nPages)
      ensures forall q :: 0 <= q < nPages ==> present[q]
      ensures faultCnt == old(faultCnt) + Missing(old(present[..]))
      ensures |seen| == nPages * 4
      ensures forall j :: 0 <= j < |seen| ==> seen[j] == mem[j * 1024]
    {
      ghost var mem0, pres0, k := mem[..], present[..], faultCnt;
      var l; ghost var v;
      seen, l, v := ReadLoop(mem0, pres0, k);
      ReadDone(mem0, pres0, k, l, v);
    }

    /** The loop of a read pass, stepping `l` from 0 while it is below
        len: it ends past the region, seeing `v`. */
    method ReadLoop(ghost mem0: seq<byte>, ghost pres0: seq<bool>, ghost k: nat)
      returns (seen: seq<byte>, l: nat, ghost v: PassView)
      requires Valid() && mem0 == mem[..] && pres0 == present[..] && k == faultCnt
      modifies this`faultCnt, page, mem, present
      ensures Valid() && l >= mem.Length
      ensures v == View(seen)
      ensures ReadFacts(mem0, pres0, k, l, v)
    {
      ReadStart(mem0, pres0, k);
      seen := [];
      l := 0;
      v := PassView(mem0, pres0, k, seen);
      while l < mem.Length
        invariant Valid() && |pres0| == nPages && |mem0| == mem.Length
        invariant v == View(seen)
        invariant ReadFacts(mem0, pres0, k, l, v)
        decreases mem.Length - l
      {
        ReadAdvance(mem0, pres0, k, l, v);
        ghost var w := v;
        v := ReadNext(v, l);
        l, seen := ReadStep(l, seen, w);
      }
    }

    /** One step of a read pass: `char c = addr[l]`, which touches page
        l / 4096 and appends the byte read to `seen`. */
    method ReadStep(l: nat, seen: seq<byte>, ghost v: PassView) returns (next: nat, seen': seq<byte>)
      requires Valid() && l < mem.Length
      requires v == View(seen)
      modifies this`faultCnt, page, mem, present
      ensures Valid() && next == l + 1024
      ensures View(seen') == ReadNext(v, l)
    {
      Touch(l);
      seen' := seen + [mem[l]];
      next := l + 1024;
    }

    /** [U5], [U7]: `memset(addr + l, c, 1024)` then a read of `addr[l]`,
        for l = 0, 1024, ... below len. Pages fault in as in a read pass;
        afterwards every byte of the region is `c` and every step reads
        it back. */
    method WritePass(c: byte) returns (seen: seq<byte>)
      requires Valid()
      modifies this`faultCnt, page, mem, present
      ensures Valid()
      ensures forall i :: 0 <= i < mem.Length ==> mem[i] == c
      ensures forall q :: 0 <= q < nPages ==> present[q]
      ensures faultCnt == old(faultCnt) + Missing(old(present[..]))
      ensures |seen| == nPages * 4
      ensures forall j :: 0 <= j < |seen| ==> seen[j] == c
    {
      ghost var mem0, pres0, k := mem[..], present[..], faultCnt;
      var l; ghost var v;
      seen, l, v := WriteLoop(c, mem0, pres0, k);
      WriteDone(mem0, pres0, k, c, l, v);
    }

    /** The loop of a write pass of `c`, stepping `l` from 0 while it is
        below len: it ends past the region, seeing `v`. */
    method WriteLoop(c: byte, ghost mem0: seq<byte>, ghost pres0: seq<bool>, ghost k: nat)
      returns (seen: seq<byte>, l: nat, ghost v: PassView)
      requires Valid() && mem0 == mem[..] && pres0 == present[..] && k == faultCnt
      modifies this`faultCnt, page, mem, present
      ensures Valid() && l >= mem.Length
      ensures v == View(seen)
      ensures WriteFacts(mem0, pres0, k, c, l, v)
    {
      WriteStart(mem0, pres0, k, c);
      seen := [];
      l := 0;
      v := PassView(mem0, pres0, k, seen);
      while l < mem.Length
        invariant Valid() && |pres0| == nPages && |mem0| == mem.Length
        invariant v == View(seen)
        invariant WriteFacts(mem0, pres0, k, c, l, v)
        decreases mem.Length - l
      {
        WriteAdvance(mem0, pres0, k, c, l, v);
        ghost var w := v;
        v := WriteNext(v, l, c);
        l, seen := WriteChunk(l, c, seen, w);
      }
    }

    /** One step of a write pass: `memset(addr + l, c, 1024)`, whose first
        byte faults the page in when it is missing, then the read of
        `addr[l]`, which is `c`. */
    method WriteChunk(l: nat, c: byte, seen: seq<byte>, ghost v: PassView) returns (next: nat, seen': seq<byte>)
      requires Valid() && l + 1024 <= mem.Length
      requires v == View(seen)
      modifies this`faultCnt, page, mem, present
      ensures Valid() && next == l + 1024 && mem[l] == c
      ensures View(seen') == WriteNext(v, l, c)
    {
      Touch(l);
      SetChunk(l, c);
      seen' := seen + [mem[l]];
      next := l + 1024;
    }

    /** `madvise(addr, len, MADV_DONTNEED)`: every page of the region is
        missing again. Their old bytes are never seen: the next access to a
        page refills all of it. */
    method Madvise()
      requires Valid()
      modifies present
      ensures forall q :: 0 <= q < nPages ==> !present[q]
    {
      for q := 0 to nPages
        invariant forall r :: 0 <= r < q ==> !present[r]
      {
        present[q] := false;
      }
    }
  }

  /** main, [M2]-[U8], over a region of `nPages` pages mapped at `base`.
      It returns what each numbered loop reads and the number of faults
      handled after each of them (`after[i]` for loop [U(i+1)]). Each page
      faults once in [U1], [U3] and [U5] and never in the other loops:
      [U1] and [U2] read 'A' + p % 20 on page p, [U3] and [U4] read the
      next patterns 'A' + (nPages + p) % 20, and the writes of [U5] and
      [U7] are read back in [U6] and [U8]. With one page, [U1] reads 'A'
      and [U3] reads 'B'. The loop counter `l` is a C int, so the region
      stays below 2^31 bytes. */
  method RunProgram(base: Addr, nPages: nat) returns (u1: seq<byte>, u2: seq<byte>, u3: seq<byte>, u4: seq<byte>,
                                                       u5: seq<byte>, u6: seq<byte>, u7: seq<byte>, u8: seq<byte>,
                                                       after: seq<nat>, faults: nat)
    requires base % 4096 == 0 && base + nPages * 4096 <= 0x1_0000_0000_0000_0000
    requires nPages * 4096 < 0x8000_0000
    ensures |u1| == |u2| == |u3| == |u4| == |u5| == |u6| == |u7| == |u8| == nPages * 4
    ensures forall j :: 0 <= j < nPages * 4 ==>
              && u1[j] == u2[j] == Pattern(j / 4)
              && u3[j] == u4[j] == Pattern(nPages + j / 4)
              && u5[j] == u6[j] == AT
              && u7[j] == u8[j] == CARET
    ensures after == [nPages, nPages, 2 * nPages, 2 * nPages, 3 * nPages, 3 * nPages, 3 * nPages, 3 * nPages]
    ensures faults == after[7]
  {
    var r := new Region(base, nPages);
    var f1, f2, f3, f4, f5, f6, f7, f8;
    u1, f1, u2, f2 := FreshPasses(r, 0);
    r.Madvise();
    u3, f3, u4, f4 := FreshPasses(r, nPages);
    r.Madvise();
    MissingAll(r.present[..]);
    u5, f5, u6, f6 := WriteThenRead(r, AT, 3 * nPages);
    MissingNone(r.present[..]);
    u7, f7, u8, f8 := WriteThenRead(r, CARET, 3 * nPages);
    after := [f1, f2, f3, f4, f5, f6, f7, f8];
    faults := r.faultCnt;
  }

  /** [U1] and [U2] (or [U3] and [U4]): two read passes over a region whose
      pages are all missing, with `k` faults handled so far. The first
      pass faults every page once, the second faults none; `f1` and `f2`
      are the fault counts after each. */
  method FreshPasses(r: Region, k: nat) returns (first: seq<byte>, f1: nat, second: seq<byte>, f2: nat)
    requires r.Valid() && r.faultCnt == k
    requires forall q :: 0 <= q < r.nPages ==> !r.present[q]
    modifies r`faultCnt, r.page, r.mem, r.present
    ensures f1 == k + r.nPages && f2 == f1
    ensures r.Valid() && r.faultCnt == f2
    ensures forall q :: 0 <= q < r.nPages ==> r.present[q]
    ensures |first| == |second| == r.nPages * 4
    ensures forall j :: 0 <= j < |first| ==> first[j] == second[j] == Pattern(k + j / 4)
  {
    ghost var mem0, pres0 := r.mem[..], r.present[..];
    first := r.ReadPass();
    MissingAll(pres0);
    forall j | 0 <= j < |first| ensures first[j] == Pattern(k + j / 4) {
      ChunkPage(j);
      TouchedAllMissing(mem0, pres0, k, j * 1024);
    }
    f1 := r.faultCnt;
    ghost var mem1, pres1 := r.mem[..], r.present[..];
    second := r.ReadPass();
    MissingNone(pres1);
    TouchedAllPresent(mem1, pres1, k + r.nPages);
    f2 := r.faultCnt;
  }

  /** [U5] and [U6] (or [U7] and [U8]): a write pass of `c`, which faults
      each missing page once, then a read pass that reads `c` everywhere
      without a fault; `f1` and `f2` are the fault counts after each. */
  method WriteThenRead(r: Region, c: byte, k: nat) returns (written: seq<byte>, f1: nat, read: seq<byte>, f2: nat)
    requires r.Valid() && r.faultCnt + Missing(r.present[..]) == k
    modifies r`faultCnt, r.page, r.mem, r.present
    ensures f1 == k && f2 == f1
    ensures r.Valid() && r.faultCnt == f2
    ensures forall q :: 0 <= q < r.nPages ==> r.present[q]
    ensures |written| == |read| == r.nPages * 4
    ensures forall j :: 0 <= j < |written| ==> written[j] == read[j] == c
  {
    written := r.WritePass(c);
    f1 := r.faultCnt;
    ghost var mem1, pres1 := r.mem[..], r.present[..];
    read := r.ReadPass();
    MissingNone(pres1);
    TouchedAllPresent(mem1, pres1, k);
    forall j | 0 <= j < |read| ensures read[j] == c {
      assert j * 1024 < r.mem.Length;
    }
    f2 := r.faultCnt;
  }
}
