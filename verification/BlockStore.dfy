/** The single-file block store that holds the audit log: an in-place,
    multi-block write loop and single-block reads over one device, proved
    against a plain byte sequence that only ever grows at its end. */
module BlockStore {
  import opened KernelTypes

  type Byte = char

  const BLOCK := 4096
  const DATA_START := 2 * BLOCK
  const TWO32 := 0x1_0000_0000
  const TWO64 := 0x1_0000_0000_0000_0000
  // The VFS never passes a longer request to a file's read or write.
  const MAX_RW_COUNT := 0x7fff_f000
  // 8 TiB: up to here the block number, an int, does not overflow.
  const MAX_DEVICE := 0x800_0000_0000

  function Min(a: int, b: int): int { if a < b then a else b }

  /** Unsigned 64-bit arithmetic. */
  function Wrap64(x: nat): nat { if x < TWO64 then x else x % TWO64 }

  /** Storing a block number in an int. */
  function ToInt32(x: nat): int {
    if x < 0x8000_0000 then x
    else
      var m := x % TWO32;
      if m < 0x8000_0000 then m else m - TWO32
  }

  /** What the environment does to one iteration of the write loop: the block
      cannot be read, or the copy from user space stops early. */
  datatype Fault = NoFault | ReadFails | CopyStops(copied: nat)

  class Store {
    const disk: array<Byte>
    const maxFileSize: nat
    var size: nat

    ghost predicate Valid()
      reads this
    {
      && disk.Length % BLOCK == 0 && disk.Length < MAX_DEVICE
      && maxFileSize < TWO64
      && DATA_START + size <= disk.Length
    }

    /** The file as a reader sees it. */
    ghost function Contents(): seq<Byte>
      reads this, disk
      requires Valid()
    {
      disk[DATA_START..DATA_START + size]
    }

    /** The device as formatted: two metadata blocks, then the header line. */
    constructor (metadata: seq<Byte>, header: seq<Byte>, blocks: nat, max: nat)
      requires |metadata| == DATA_START && DATA_START + |header| <= blocks * BLOCK < MAX_DEVICE
      requires max < TWO64
      ensures Valid() && fresh(disk)
      ensures Contents() == header && maxFileSize == max
      ensures disk[..DATA_START] == metadata && disk.Length == blocks * BLOCK
    {
      var image := metadata + header;
      var d := new Byte[blocks * BLOCK](i => if 0 <= i < |image| then image[i] else '\0');
      disk := d;
      size := |header|;
      maxFileSize := max;
      new;
      assert d[..DATA_START] == metadata;
      assert d[DATA_START..DATA_START + |header|] == header;
    }

    /** The device is `base` with the first `n` bytes of `buf` laid over it from `start`. */
    ghost predicate Laid(base: seq<Byte>, start: nat, buf: seq<Byte>, n: nat)
      reads disk
      requires n <= |buf| && |base| == disk.Length
    {
      forall k :: 0 <= k < disk.Length ==>
        disk[k] == if start <= k < start + n then buf[k - start] else base[k]
    }

    /** Copies `n` bytes of a user buffer, from `src` on, into a block buffer. */
    method CopyFromUser(at: nat, buf: seq<Byte>, src: nat, n: nat, ghost base: seq<Byte>, ghost start: nat)
      requires at + n <= disk.Length && src + n <= |buf| && at == start + src
      requires |base| == disk.Length && Laid(base, start, buf, src)
      modifies disk
      ensures Laid(base, start, buf, src + n)
    {
      for i := 0 to n
        invariant Laid(base, start, buf, src + i)
      {
        disk[at + i] := buf[src + i];
      }
    }

    /** The block loop of a write. However it ends, the device is the old one
        with some part of the buffer laid over it from the end of the file. */
    method WriteBlocks(buf: seq<Byte>, faults: nat -> Fault) returns (res: int, ghost reached: nat)
      requires Valid()
      modifies disk
      ensures reached <= |buf| && DATA_START + size + reached <= disk.Length
      ensures Laid(old(disk[..]), DATA_START + size, buf, reached)
      ensures res == |buf| == reached || res == -EIO || res == -EFAULT
      ensures res == -EFAULT ==> exists i: nat :: faults(i).CopyStops?
      ensures res == -EIO ==> (exists i: nat :: faults(i).ReadFails?) || DATA_START + size + |buf| > disk.Length
      ensures DATA_START + size + |buf| <= disk.Length && (forall i: nat :: faults(i).NoFault?) ==> res >= 0
    {
      ghost var base, start := disk[..], DATA_START + size;
      var pos, toWrite, written, iteration := size, |buf|, 0, 0;
      while toWrite > 0
        invariant 0 <= written && 0 <= toWrite && written + toWrite == |buf| && pos == size + written
        invariant start + written <= disk.Length
        invariant Laid(base, start, buf, written)
        decreases toWrite
      {
        var blockNumber := ToInt32(pos / BLOCK + 2);
        var offset := pos % BLOCK;
        BlockInRange(pos, disk.Length);
        if faults(iteration).ReadFails? || blockNumber < 0 || (blockNumber + 1) * BLOCK > disk.Length {
          return -EIO, written;
        }
        var writeLen := Min(toWrite, BLOCK - offset);
        var at := blockNumber * BLOCK + offset;
        if faults(iteration).CopyStops? && faults(iteration).copied < writeLen {
          CopyFromUser(at, buf, written, faults(iteration).copied, base, start);
          return -EFAULT, written + faults(iteration).copied;
        }
        CopyFromUser(at, buf, written, writeLen, base, start);
        pos := pos + writeLen;
        toWrite := toWrite - writeLen;
        written := written + writeLen;
        iteration := iteration + 1;
      }
      return written, written;
    }

    /** Appends the buffer whatever the caller's offset; on success the result
        is the length and the new offset is the new size. */
    method Write(buf: seq<Byte>, off: nat, faults: nat -> Fault) returns (res: int, newOff: nat)
      requires Valid() && |buf| <= MAX_RW_COUNT
      modifies this`size, disk
      ensures Valid()
      // either the whole buffer is appended and the size stays below the limit ...
      ensures res >= 0 ==> res == |buf| && Contents() == old(Contents()) + buf
      ensures res >= 0 ==> newOff == size < maxFileSize
      // ... or an error is reported and the visible file is as before
      ensures res < 0 ==> Contents() == old(Contents()) && newOff == off
      ensures res < 0 ==> res in {-EFBIG, -EIO, -EFAULT}
      ensures res == -EFAULT ==> exists i: nat :: faults(i).CopyStops?
      ensures res == -EIO ==> (exists i: nat :: faults(i).ReadFails?) || DATA_START + old(size) + |buf| > disk.Length
      ensures res == -EFBIG <==> old(size) + |buf| >= maxFileSize
      // enough room and no fault means success
      ensures (&& old(size) + |buf| < maxFileSize
               && DATA_START + old(size) + |buf| <= disk.Length
               && forall i: nat :: faults(i).NoFault?) ==> res >= 0
      // in every case metadata and all bytes below the old end are untouched,
      // and nothing beyond the appended range changes
      ensures forall k :: 0 <= k < DATA_START + old(size) ==> disk[k] == old(disk[k])
      ensures forall k :: DATA_START + old(size) + |buf| <= k < disk.Length ==> disk[k] == old(disk[k])
    {
      var pos := size;
      if Wrap64(pos + |buf|) >= maxFileSize {
        return -EFBIG, off;
      }
      ghost var reached;
      res, reached := WriteBlocks(buf, faults);
      assert Contents() == old(Contents());
      if res < 0 {
        return res, off;
      }
      assert disk[DATA_START..DATA_START + size + |buf|] == old(Contents()) + buf;
      pos := pos + |buf|;
      size := if pos > size then pos else size;
      newOff := pos;
    }

    /** Reads at most one block's worth from the offset; `copyFails` and
        `readFails` are the environment's. */
    method Read(len: nat, off: nat, readFails: bool, copyFails: bool)
      returns (res: int, out: seq<Byte>, newOff: nat)
      requires Valid() && len <= MAX_RW_COUNT && off < TWO64 - MAX_RW_COUNT
      ensures res < 0 ==> out == [] && newOff == off && res in {-EIO, -EFAULT}
      ensures res == -EIO <==> off < size && readFails
      ensures res == -EFAULT <==> off < size && !readFails && copyFails
      ensures res >= 0 ==> newOff == off + res && out == Chunk(Contents(), off, len) && |out| == res
    {
      if size == 0 || off >= size { return 0, [], off; }
      var n, block, offset := Locate(off, len, size);
      BlockInRange(off, disk.Length);
      if readFails || block < 0 || (block + 1) * BLOCK > disk.Length {
        return -EIO, [], off;
      }
      if copyFails { return -EFAULT, [], off; }
      var at := block * BLOCK + offset;
      out := disk[at..at + n];
      assert out == Chunk(Contents(), off, len) by {
        SliceOfSlice(disk[..], DATA_START, size, off, n);
        assert Contents() == disk[..][DATA_START..DATA_START + size];
      }
      res, newOff := n, off + n;
    }

    /** Seeking is not supported: the position stays where it is. */
    method Llseek(pos: nat, offset: int, whence: int) returns (r: nat)
      ensures forall log, held :: FileStep(FileView(log, pos, held), Seek(offset, whence)) == FileView(log, r, held)
    {
      r := pos;
    }
  }

  /** A position whose byte lies on the device lies in a whole block of it, and
      its block number survives being stored in an int. */
  lemma BlockInRange(pos: nat, length: nat)
    requires length % BLOCK == 0 && length < MAX_DEVICE && DATA_START + pos <= length
    ensures DATA_START + pos < length ==> (pos / BLOCK + 3) * BLOCK <= length
    ensures ToInt32(pos / BLOCK + 2) == pos / BLOCK + 2
  {
  }

  /** How much a read takes, and from which block and place in it. */
  method Locate(off: nat, len: nat, size: nat) returns (n: nat, block: int, offset: nat)
    requires off < size && DATA_START + size < MAX_DEVICE && len <= MAX_RW_COUNT
    ensures n == ChunkLength(size, off, len)
    ensures block == off / BLOCK + 2 && block * BLOCK + offset == DATA_START + off
  {
    n := len;
    if Wrap64(off + n) > size { n := size - off; }
    offset := off % BLOCK;
    if offset + n > BLOCK { n := BLOCK - offset; }
    block := ToInt32(off / BLOCK + 2);
  }

  lemma SliceOfSlice(d: seq<Byte>, start: nat, size: nat, off: nat, n: nat)
    requires start + size <= |d| && off + n <= size
    ensures d[start..start + size][off..off + n] == d[start + off..start + off + n]
  {
    var s := d[start..start + size];
    var r := s[off..off + n];
    assert forall i :: 0 <= i < n ==> r[i] == d[start + off + i];
  }

  // ------------------------------------------------------------------ readers

  /** What one read of the visible file returns. */
  function Chunk(log: seq<Byte>, off: nat, len: nat): seq<Byte> {
    if off >= |log| then [] else log[off..off + ChunkLength(|log|, off, len)]
  }

  /** No more than asked for, than is there, or than is left of the block. */
  function ChunkLength(size: nat, off: nat, len: nat): (n: nat)
    requires off < size
    ensures off + n <= size
    ensures len > 0 ==> n > 0
  {
    Min(Min(len, size - off), BLOCK - off % BLOCK)
  }

  /** A read is maximal: it got all that was asked for, reached the end of the
      file or ended at a block boundary, and it never crosses one. */
  lemma ReadIsMaximal(log: seq<Byte>, off: nat, len: nat)
    ensures var got := |Chunk(log, off, len)|;
            && got <= len && (off <= |log| ==> off + got <= |log|)
            && (got == len || off + got >= |log| || (off + got) % BLOCK == 0)
            && off % BLOCK + got <= BLOCK
  {
  }

  /** A reader of the file and everybody who appends to it, interleaved. */
  datatype FileEvent = Append(buf: seq<Byte>) | ReadRequest(len: nat, fails: bool) | Seek(offset: int, whence: int)
  datatype FileView = FileView(log: seq<Byte>, off: nat, held: seq<Byte>)

  function FileStep(v: FileView, e: FileEvent): FileView {
    match e
    case Append(buf) => v.(log := v.log + buf)
    case Seek(_, _) => v
    case ReadRequest(len, fails) =>
      if fails then v
      else
        var got := Chunk(v.log, v.off, len);
        v.(off := v.off + |got|, held := v.held + got)
  }

  function FileRun(v: FileView, es: seq<FileEvent>): FileView
    decreases |es|
  {
    if es == [] then v else FileRun(FileStep(v, es[0]), es[1..])
  }

  predicate HoldsPrefix(v: FileView) {
    v.off <= |v.log| && v.held == v.log[..v.off]
  }

  lemma FileStepKeepsPrefix(v: FileView, e: FileEvent)
    requires HoldsPrefix(v)
    ensures HoldsPrefix(FileStep(v, e)) && v.log <= FileStep(v, e).log
  {
    var v' := FileStep(v, e);
    if e.ReadRequest? && !e.fails && v.off < |v.log| {
      assert v'.held == v.log[..v'.off];
    } else {
      assert v'.held == v'.log[..v'.off];
    }
  }

  /** Reads that start at offset 0, mixed in any order with appends, attempts to
      seek and failed reads, always hold a prefix of the current log. */
  lemma {:induction false} ReaderHoldsPrefix(v: FileView, es: seq<FileEvent>)
    requires HoldsPrefix(v)
    ensures HoldsPrefix(FileRun(v, es)) && v.log <= FileRun(v, es).log
    decreases |es|
  {
    if es != [] {
      FileStepKeepsPrefix(v, es[0]);
      ReaderHoldsPrefix(FileStep(v, es[0]), es[1..]);
    }
  }

  ghost predicate OnlyReads(es: seq<FileEvent>) {
    forall i :: 0 <= i < |es| ==> es[i].ReadRequest? && !es[i].fails && es[i].len > 0
  }

  /** Once appends and failures cease, every non-empty request shortens what is
      left, so as many requests as there are bytes left reach the end of file. */
  lemma {:induction false} ReadsReachEnd(v: FileView, es: seq<FileEvent>)
    requires HoldsPrefix(v) && OnlyReads(es) && |es| >= |v.log| - v.off
    ensures FileRun(v, es).held == FileRun(v, es).log == v.log
    decreases |es|
  {
    if es != [] {
      var v' := FileStep(v, es[0]);
      FileStepKeepsPrefix(v, es[0]);
      assert v.off < |v.log| ==> v'.off > v.off;
      assert forall i :: 0 <= i < |es[1..]| ==> es[1..][i] == es[i + 1];
      ReadsReachEnd(v', es[1..]);
    }
  }
}
