/**
 WRITE SAME: one block of data is written to a range of blocks. The chunked loop,
 which writes from a work buffer holding many copies, is proved against writing
 the block once per block of the range.
 */
module WriteSame {
  import opened Bytes
  import opened Names
  import opened Numbers

  const WORK_BLOCK_SIZE := 0x10_0000

  // ---------------------------------------------------------------- one block at a time

  /** m with d written at off, as pwrite does it. */
  function WriteAt(m: seq<byte>, off: nat, d: seq<byte>): (r: seq<byte>)
    requires off + |d| <= |m|
    ensures |r| == |m|
  {
    m[..off] + d + m[off + |d|..]
  }

  /** k copies of d. */
  function Copies(d: seq<byte>, k: nat): (r: seq<byte>)
    ensures |r| == k * |d|
  {
    if k == 0 then [] else Copies(d, k - 1) + d
  }

  /** n blocks from off on, each written by itself: the loop that the chunked one stands for. */
  function SameBlocks(m: seq<byte>, d: seq<byte>, off: nat, n: nat): (r: seq<byte>)
    requires off + n * |d| <= |m|
    ensures |r| == |m|
  {
    if n == 0 then m
    else
      Times(n - 1, 1, |d|);
      WriteAt(SameBlocks(m, d, off, n - 1), off + (n - 1) * |d|, d)
  }

  // ---------------------------------------------------------------- lemmas

  lemma Times(a: nat, b: nat, c: nat)
    ensures (a + b) * c == a * c + b * c
    ensures a * c >= 0 && b * c >= 0
  {
  }

  lemma {:induction false} CopiesConcat(d: seq<byte>, a: nat, b: nat)
    ensures Copies(d, a) + Copies(d, b) == Copies(d, a + b)
  {
    if b != 0 {
      CopiesConcat(d, a, b - 1);
      assert Copies(d, a) + (Copies(d, b - 1) + d) == (Copies(d, a) + Copies(d, b - 1)) + d;
    }
  }

  lemma CopiesPrefix(d: seq<byte>, a: nat, b: nat)
    requires a <= b
    ensures a * |d| <= b * |d| && Copies(d, b)[..a * |d|] == Copies(d, a)
  {
    CopiesConcat(d, a, b - a);
    Times(a, b - a, |d|);
  }

  lemma WriteTwice(m: seq<byte>, off: nat, a: seq<byte>, b: seq<byte>)
    requires off + |a| + |b| <= |m|
    ensures WriteAt(WriteAt(m, off, a), off + |a|, b) == WriteAt(m, off, a + b)
  {
  }

  lemma WriteNothing(m: seq<byte>, off: nat)
    requires off <= |m|
    ensures WriteAt(m, off, []) == m
  {
  }

  /** A run of blocks written one at a time is one write of as many copies. */
  lemma {:induction false} BlocksAreOneWrite(m: seq<byte>, d: seq<byte>, off: nat, n: nat)
    requires off + n * |d| <= |m|
    ensures SameBlocks(m, d, off, n) == WriteAt(m, off, Copies(d, n))
  {
    hide WriteAt;
    if n == 0 {
      WriteNothing(m, off);
    } else {
      Times(n - 1, 1, |d|);
      BlocksAreOneWrite(m, d, off, n - 1);
      WriteTwice(m, off, Copies(d, n - 1), d);
    }
  }

  /** One chunk of k copies continues a run of n blocks. */
  lemma Chunk(m: seq<byte>, d: seq<byte>, off: nat, n: nat, k: nat)
    requires off + (n + k) * |d| <= |m|
    ensures n * |d| + k * |d| == (n + k) * |d|
    ensures WriteAt(SameBlocks(m, d, off, n), off + n * |d|, Copies(d, k)) == SameBlocks(m, d, off, n + k)
  {
    hide WriteAt, Copies, SameBlocks;
    Times(n, k, |d|);
    BlocksAreOneWrite(m, d, off, n);
    BlocksAreOneWrite(m, d, off, n + k);
    WriteTwice(m, off, Copies(d, n), Copies(d, k));
    CopiesConcat(d, n, k);
  }

  /** Block j of a medium. */
  function Block(m: seq<byte>, blen: nat, j: nat): seq<byte>
    requires (j + 1) * blen <= |m|
  {
    Times(j, 1, blen);
    m[j * blen..j * blen + blen]
  }

  lemma Below(i: nat, j: nat, b: nat)
    requires i < j
    ensures i * b + b <= j * b
  {
    Times(i + 1, j - i - 1, b);
    Times(i, 1, b);
  }

  lemma SliceOutside(m: seq<byte>, off: nat, d: seq<byte>, lo: nat, hi: nat)
    requires off + |d| <= |m| && lo <= hi <= |m| && (hi <= off || off + |d| <= lo)
    ensures WriteAt(m, off, d)[lo..hi] == m[lo..hi]
  {
  }

  lemma SliceInside(m: seq<byte>, off: nat, d: seq<byte>)
    requires off + |d| <= |m|
    ensures WriteAt(m, off, d)[off..off + |d|] == d
  {
  }

  lemma BlockWritten(m: seq<byte>, d: seq<byte>, at: nat, j: nat)
    requires (at + 1) * |d| <= |m| && (j + 1) * |d| <= |m|
    ensures at * |d| + |d| <= |m|
    ensures Block(WriteAt(m, at * |d|, d), |d|, j) == if j == at then d else Block(m, |d|, j)
  {
    hide WriteAt;
    Times(at, 1, |d|);
    Times(j, 1, |d|);
    if j < at {
      Below(j, at, |d|);
      SliceOutside(m, at * |d|, d, j * |d|, j * |d| + |d|);
    } else if at < j {
      Below(at, j, |d|);
      SliceOutside(m, at * |d|, d, j * |d|, j * |d| + |d|);
    } else {
      SliceInside(m, at * |d|, d);
    }
  }

  /** Afterwards exactly the blocks of the range hold the data; every other block is untouched. */
  lemma {:induction false} BlocksOfTheRange(m: seq<byte>, d: seq<byte>, lba: nat, n: nat, j: nat)
    requires (lba + n) * |d| <= |m| && (j + 1) * |d| <= |m|
    ensures lba * |d| + n * |d| == (lba + n) * |d|
    ensures Block(SameBlocks(m, d, lba * |d|, n), |d|, j) == if lba <= j < lba + n then d else Block(m, |d|, j)
  {
    hide Block, WriteAt;
    var b := |d|;
    Times(lba, n, b);
    if n != 0 {
      Times(n - 1, 1, b);
      Times(lba, n - 1, b);
      BlocksOfTheRange(m, d, lba, n - 1, j);
      Times(lba + n - 1, 1, b);
      BlockWritten(SameBlocks(m, d, lba * b, n - 1), d, lba + n - 1, j);
    }
  }

  // ---------------------------------------------------------------- the disk

  datatype Outcome = Good(dataLen: nat) | EndOfMedia | Failed

  class Disk {
    const blocklen: nat
    const blockcnt: nat
    const readonly: bool
    const medium: array<byte>
    /** How many more writes the store accepts. */
    var writesLeft: nat
    var reqWriteCache: bool
    var workbuf: array?<byte>

    ghost predicate Valid()
      reads this
    {
      && blocklen > 0 && blockcnt * blocklen <= medium.Length
      && (workbuf != null ==> workbuf != medium && workbuf.Length == WORK_BLOCK_SIZE)
    }

    constructor (blocklen: nat, blockcnt: nat, readonly: bool, medium: array<byte>, writesLeft: nat)
      requires blocklen > 0 && blockcnt * blocklen <= medium.Length
      ensures Valid() && this.blocklen == blocklen && this.blockcnt == blockcnt && this.readonly == readonly
      ensures this.medium == medium && this.writesLeft == writesLeft && workbuf == null
    {
      this.blocklen, this.blockcnt, this.readonly, this.medium := blocklen, blockcnt, readonly, medium;
      this.writesLeft, reqWriteCache, workbuf := writesLeft, false, null;
    }

    /** All of the octets are written, inside the medium, or none is. */
    method Pwrite(buf: array<byte>, nbytes: nat, offset: nat) returns (rc: int)
      requires nbytes <= buf.Length && offset + nbytes <= medium.Length && buf != medium
      modifies this`writesLeft, medium
      ensures old(writesLeft) == 0 ==> rc == -1 && writesLeft == 0 && medium[..] == old(medium[..])
      ensures old(writesLeft) > 0 ==> rc == nbytes && writesLeft == old(writesLeft) - 1
      ensures old(writesLeft) > 0 ==> medium[..] == WriteAt(old(medium[..]), offset, buf[..nbytes])
    {
      if writesLeft == 0 {
        return -1;
      }
      writesLeft := writesLeft - 1;
      forall i | 0 <= i < nbytes {
        medium[offset + i] := buf[i];
      }
      rc := nbytes;
    }

    /** The work buffer takes as many copies of the block as fit. */
    method FillWork(work: array<byte>, data: seq<byte>, wblocks: nat)
      requires |data| == blocklen && wblocks * blocklen <= work.Length
      modifies work
      ensures work[..wblocks * blocklen] == Copies(data, wblocks)
    {
      var nblocks := 0;
      while nblocks < wblocks
        invariant nblocks <= wblocks && nblocks * blocklen <= work.Length
        invariant work[..nblocks * blocklen] == Copies(data, nblocks)
      {
        Times(nblocks, 1, blocklen);
        Below(nblocks, wblocks, blocklen);
        var at := nblocks * blocklen;
        forall i | 0 <= i < blocklen {
          work[at + i] := data[i];
        }
        assert work[..at + blocklen] == Copies(data, nblocks) + data;
        nblocks := nblocks + 1;
      }
    }

    /** The chunked loop: after any number of successful writes the medium is as the simple loop would leave it. */
    method WriteChunks(work: array<byte>, ghost data: seq<byte>, wblocks: nat, lba: nat, llen: nat)
      returns (ok: bool, nblocks: nat)
      requires Valid() && work != medium && |data| == blocklen && 0 < wblocks
      requires wblocks * blocklen <= work.Length && work[..wblocks * blocklen] == Copies(data, wblocks)
      requires lba + llen <= blockcnt
      modifies this`writesLeft, medium
      ensures lba * blocklen + nblocks * blocklen <= medium.Length && nblocks <= llen
      ensures medium[..] == SameBlocks(old(medium[..]), data, lba * blocklen, nblocks)
      ensures ok <==> llen <= old(writesLeft) * wblocks
      ensures nblocks == if ok then llen else old(writesLeft) * wblocks
    {
      hide SameBlocks, Copies, WriteAt;
      var offset := lba * blocklen;
      Fits(lba, 0, llen, blockcnt, blocklen);
      nblocks := 0;
      SameNone(medium[..], data, offset);
      while nblocks < llen
        invariant nblocks <= llen && offset == lba * blocklen + nblocks * blocklen <= medium.Length
        invariant medium[..] == SameBlocks(old(medium[..]), data, lba * blocklen, nblocks)
        invariant writesLeft <= old(writesLeft)
        invariant nblocks == Min(llen, (old(writesLeft) - writesLeft) * wblocks)
      {
        var reqblocks := if wblocks < llen - nblocks then wblocks else llen - nblocks;
        var reqbytes := reqblocks * blocklen;
        Fits(lba, nblocks, reqblocks, blockcnt, blocklen);
        CopiesPrefix(data, reqblocks, wblocks);
        assert work[..reqbytes] == work[..wblocks * blocklen][..reqbytes];
        Chunk(old(medium[..]), data, lba * blocklen, nblocks, reqblocks);
        OneWrite(old(writesLeft), writesLeft, wblocks, llen, nblocks);
        var rc := Pwrite(work, reqbytes, offset);
        if rc < 0 || rc != reqbytes {
          return false, nblocks;
        }
        offset := offset + reqbytes;
        nblocks := nblocks + reqblocks;
      }
      ok := true;
    }

    /** The blocks that go out with one write; none if a block is larger than the work buffer. */
    function PerWrite(): (k: nat)
      requires blocklen > 0
      ensures k * blocklen <= 0x10_0000 < k * blocklen + blocklen
    {
      WORK_BLOCK_SIZE / blocklen
    }

    /**
     istgt_lu_disk_lbwrite_same. The data block is what the transfer delivered,
     if it did; written counts the blocks that reached the medium.
     */
    method LbWriteSame(lba: nat, len: nat, iobufsize: nat, transferred: Option<seq<byte>>)
      returns (r: Outcome, ghost written: nat)
      requires Valid()
      requires transferred.Some? ==> |transferred.value| == blocklen
      modifies this, medium, workbuf
      ensures Valid()
      ensures r == EndOfMedia <==> lba >= blockcnt || lba + len > blockcnt
      ensures r == Failed <==>
        && lba < blockcnt && lba + len <= blockcnt
        && (blocklen > iobufsize || transferred == None || readonly
            || (if len == 0 then blockcnt - lba else len) > old(writesLeft) * PerWrite())
      ensures r.Good? ==> r.dataLen == blocklen && written == if len == 0 then blockcnt - lba else len
      ensures !r.Good? ==> written == 0 || written == old(writesLeft) * PerWrite()
      ensures written > 0 ==> transferred.Some? && lba * blocklen + written * blocklen <= medium.Length
      ensures medium[..] == if written == 0 then old(medium[..])
                            else SameBlocks(old(medium[..]), transferred.value, lba * blocklen, written)
    {
      hide SameBlocks, Disk.PerWrite;
      written := 0;
      var maxlba := blockcnt;
      var llen := len;
      if llen == 0 {
        if lba >= maxlba {
          return EndOfMedia, 0;
        }
        llen := maxlba - lba;
      }
      var nbytes := blocklen;
      if lba >= maxlba || llen > maxlba || lba > maxlba - llen {
        return EndOfMedia, 0;
      }
      if nbytes > iobufsize || transferred == None || readonly {
        return Failed, 0;
      }
      r, written := WriteRange(transferred.value, lba, llen);
    }

    /** The work buffer is set up and the blocks of a range that lies on the disk are written. */
    method WriteRange(data: seq<byte>, lba: nat, llen: nat) returns (r: Outcome, ghost written: nat)
      requires Valid() && |data| == blocklen && 0 < llen && lba + llen <= blockcnt
      modifies this, medium, workbuf
      ensures Valid()
      ensures r == if llen <= old(writesLeft) * PerWrite() then Good(blocklen) else Failed
      ensures written == if r.Good? then llen else old(writesLeft) * PerWrite()
      ensures written > 0 ==> lba * blocklen + written * blocklen <= medium.Length
      ensures medium[..] == if written == 0 then old(medium[..])
                            else SameBlocks(old(medium[..]), data, lba * blocklen, written)
    {
      hide SameBlocks, Copies;
      written := 0;
      if workbuf == null {
        workbuf := new byte[WORK_BLOCK_SIZE];
      }
      var wblocks := WORK_BLOCK_SIZE / blocklen;
      if wblocks == 0 {
        return Failed, 0;
      }
      reqWriteCache := false;
      CopiesFit(wblocks, blocklen);
      FillWork(workbuf, data, wblocks);
      var ok, nblocks := WriteChunks(workbuf, data, wblocks, lba, llen);
      if nblocks == 0 {
        SameNone(old(medium[..]), data, lba * blocklen);
      }
      r, written := if ok then Good(blocklen) else Failed, nblocks;
    }
  }

  lemma CopiesFit(k: nat, b: nat)
    requires b > 0 && k == WORK_BLOCK_SIZE / b
    ensures k * b <= WORK_BLOCK_SIZE
    ensures k == 0 <==> b > WORK_BLOCK_SIZE
  {
  }

  /** How far the writes that went through and one more reach. */
  lemma OneWrite(all: nat, left: nat, wblocks: nat, llen: nat, nblocks: nat)
    requires left <= all && 0 < wblocks && nblocks == Min(llen, (all - left) * wblocks) < llen
    ensures left == 0 ==> nblocks == all * wblocks
    ensures left > 0 ==> Min(llen, (all - (left - 1)) * wblocks) == nblocks + Min(wblocks, llen - nblocks)
    ensures all * wblocks >= (all - left) * wblocks
    ensures left > 0 ==> all * wblocks >= (all - (left - 1)) * wblocks
  {
    Times(all - left, left, wblocks);
    if left > 0 {
      Times(all - left, 1, wblocks);
      Times(all - left + 1, left - 1, wblocks);
    }
  }

  lemma SameNone(m: seq<byte>, d: seq<byte>, off: nat)
    requires off <= |m|
    ensures SameBlocks(m, d, off, 0) == m
  {
  }

  /** A range inside the disk lies inside the medium. */
  lemma Fits(lba: nat, n: nat, k: nat, cnt: nat, b: nat)
    requires lba + n + k <= cnt
    ensures lba * b + n * b + k * b <= cnt * b
    ensures lba * b + (n + k) * b == lba * b + n * b + k * b
  {
    Times(lba, n, b);
    Times(lba + n, k, b);
    Times(n, k, b);
    Times(lba + n + k, cnt - lba - n - k, b);
  }
}
