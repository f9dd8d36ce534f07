/** The file operations of the toy file system: every file reads as the
    constant text "Hello World!\n" and ignores writes. */
module S2fs {

  /** The whole content every s2fs file reads as. */
  const DATA: seq<char> := "Hello World!\n"

  /** The errno a failed copy to user space reports (returned negated). */
  const EFAULT: int := 14

  /** A `loff_t` file position: a signed 64-bit integer. */
  type LOff = x: int | -0x8000_0000_0000_0000 <= x < 0x8000_0000_0000_0000

  /** A `size_t` byte count: an unsigned 64-bit integer. */
  type SizeT = x: int | 0 <= x < 0x1_0000_0000_0000_0000

  /** The value a read returns and the file position it leaves behind. */
  datatype ReadOutcome = ReadOutcome(ret: int, offset: LOff)

  function Min(a: int, b: int): int { if a <= b then a else b }

  /** What `s2fs_read_file` does when asked for `count` bytes at position
      `offset` and the user buffer can take `room` bytes. The position is
      compared with the length after the usual conversion to `size_t`, so
      a negative position counts as a huge one. */
  function Read(count: SizeT, offset: LOff, room: nat): (r: ReadOutcome)
    ensures (offset < 0 || offset > |DATA|) ==> r == ReadOutcome(0, offset)
    ensures 0 <= offset <= |DATA| && Min(count, |DATA| - offset) > room ==>
              r == ReadOutcome(-EFAULT, offset)
    ensures 0 <= offset <= |DATA| && Min(count, |DATA| - offset) <= room ==>
              r.ret == Min(count, |DATA| - offset) && r.offset == offset + r.ret
    ensures r.ret >= 0 ==> 0 <= r.offset - offset == r.ret && (offset >= 0 ==> r.offset <= |DATA| || r.ret == 0)
  {
    var unsignedOffset := offset % 0x1_0000_0000_0000_0000;
    if unsignedOffset > |DATA| then
      ReadOutcome(0, offset)
    else
      var n := if count > |DATA| - offset then |DATA| - offset else count;
      if n > room then ReadOutcome(-EFAULT, offset)
      else ReadOutcome(n, offset + n)
  }

  /** A read at the end of the file returns 0: end of file. */
  lemma ReadAtEndIsEof(count: SizeT, room: nat)
    ensures Read(count, |DATA|, room) == ReadOutcome(0, |DATA|)
  {
  }

  /** The text a reader collects by reading `count` bytes at a time from
      `offset` until a read returns 0 or fails, as `cat` does. */
  function Cat(count: SizeT, offset: LOff): seq<char>
    requires count > 0 && 0 <= offset <= |DATA|
    decreases |DATA| - offset
  {
    var r := Read(count, offset, count);
    if r.ret <= 0 then [] else DATA[offset..r.offset] + Cat(count, r.offset)
  }

  /** Reading repeatedly from `offset` with any positive count yields
      exactly the rest of "Hello World!\n" and then end of file; from 0,
      the whole text. */
  lemma {:induction false} CatReadsRest(count: SizeT, offset: LOff)
    requires count > 0 && 0 <= offset <= |DATA|
    ensures Cat(count, offset) == DATA[offset..]
    decreases |DATA| - offset
  {
    var r := Read(count, offset, count);
    if r.ret > 0 {
      CatReadsRest(count, r.offset);
      assert DATA[offset..r.offset] + DATA[r.offset..] == DATA[offset..];
    }
  }

  /** An open s2fs file: the position `*offset` that reads advance. */
  class OpenFile {
    var pos: LOff

    constructor ()
      ensures pos == 0
    {
      pos := 0;
    }

    /** `s2fs_read_file` into the user buffer `buf`: the first `ret`
        bytes of `buf` receive DATA[pos..pos+ret] and `pos` moves on by
        `ret`; a buffer too small for the clamped count is a copy fault,
        reported as -EFAULT with nothing changed. */
    method ReadFile(buf: array<char>, count: SizeT) returns (ret: int)
      modifies this, buf
      ensures ReadOutcome(ret, pos) == Read(count, old(pos), buf.Length)
      ensures ret > 0 ==> 0 <= old(pos) && old(pos) + ret <= |DATA| &&
                          buf[..ret] == DATA[old(pos)..old(pos) + ret]
      ensures ret > 0 ==> buf[ret..] == old(buf[ret..])
      ensures ret <= 0 ==> buf[..] == old(buf[..])
    {
      var off := pos;
      var unsignedOffset := off % 0x1_0000_0000_0000_0000;
      if unsignedOffset > |DATA| {
        return 0;
      }
      assert 0 <= off <= |DATA|;
      var n := count;
      if n > |DATA| - off {
        n := |DATA| - off;
      }
      if n > buf.Length {
        return -EFAULT;
      }
      CopyToUser(buf, off, n);
      pos := off + n;
      ret := n;
    }

    /** The `copy_to_user` of a read: DATA[off..off+n] lands at the start
        of `buf`, the rest of `buf` is untouched. */
    method CopyToUser(buf: array<char>, off: nat, n: nat)
      requires off + n <= |DATA| && n <= buf.Length
      modifies buf
      ensures buf[..n] == DATA[off..off + n]
      ensures buf[n..] == old(buf[n..])
    {
      for i := 0 to n
        invariant forall j :: 0 <= j < i ==> buf[j] == DATA[off + j]
        invariant forall j :: i <= j < buf.Length ==> buf[j] == old(buf[j])
      {
        buf[i] := DATA[off + i];
      }
      assert buf[..n] == DATA[off..off + n];
      assert buf[n..] == old(buf[n..]);
    }

    /** `s2fs_write_file` accepts nothing: it returns 0 and changes
        neither the file position nor the content. */
    method WriteFile(buf: seq<char>, count: SizeT) returns (ret: int)
      ensures ret == 0
    {
      ret := 0;
    }
  }
}
