/**
  The boot-time reader of the same volume: an independent program that walks the same bytes
  through a sector-reading disk and a single bounce buffer.
  */
module HfsBooter {
  import opened Bytes
  import opened Blocking
  import opened ForwardCopy
  import opened Machine
  import opened HfsExtents

  const NODE_BUF := 8192
  const DEFAULT_SIZE := 4096

  // ---------- disk ----------

  /** A disk image and the sectors the device reports as failing. */
  datatype Disk = Disk(data: seq<byte>, bad: set<nat>)

  predicate Readable(d: Disk, lba: nat, count: nat) {
    SECTOR * (lba + count) <= |d.data| && forall s :: lba <= s < lba + count ==> s !in d.bad
  }

  /** `disk_read`: the sectors, or an error after which the buffer holds anything. */
  method DiskRead(d: Disk, lba: nat, count: nat, buf: array<byte>) returns (ok: bool)
    requires SECTOR * count <= buf.Length
    modifies buf
    ensures ok <==> Readable(d, lba, count)
    ensures ok ==> buf[..SECTOR * count] == d.data[SECTOR * lba..SECTOR * (lba + count)]
    ensures buf[SECTOR * count..] == old(buf[SECTOR * count..])
  {
    ok := SECTOR * (lba + count) <= |d.data| && forall s :: lba <= s < lba + count ==> s !in d.bad;
    if ok {
      forall i | 0 <= i < SECTOR * count {
        buf[i] := d.data[SECTOR * lba + i];
      }
    }
  }

  /** Byte-by-byte forward copy, between two buffers or inside one. */
  method CopyBytes(src: array<byte>, from: nat, dst: array<byte>, to: nat, n: nat)
    requires from + n <= src.Length && to + n <= dst.Length
    modifies dst
    ensures src != dst ==> dst[..] == Patch(old(dst[..]), to, old(src[from..from + n]))
    ensures src == dst ==> dst[..] == Copied(old(dst[..]), to, from, n)
  {
    hide Copied, Patch;
    ghost var was, before := src[..], dst[..];
    if src == dst {
      CopyNone(before, to, from);
    }
    NoPatch(before, to);
    for k := 0 to n
      invariant src != dst ==> src[..] == was && dst[..] == Patch(before, to, was[from..from + k])
      invariant src == dst ==> dst[..] == Copied(before, to, from, k)
    {
      ghost var mid := dst[..];
      dst[to + k] := src[from + k];
      if src == dst {
        CopyMore(before, to, from, k);
        assert dst[..] == mid[to + k := mid[from + k]];
      } else {
        assert was[from..from + k + 1] == was[from..from + k] + [was[from + k]];
        PatchMore(before, to, was[from..from + k], was[from + k]);
        assert dst[..] == mid[to + k := was[from + k]];
      }
    }
  }

  lemma CopyNone(b: seq<byte>, to: nat, from: nat)
    requires to <= |b| && from <= |b|
    ensures Copied(b, to, from, 0) == b
  {
  }

  lemma CopyMore(b: seq<byte>, to: nat, from: nat, k: nat)
    requires to + k < |b| && from + k < |b|
    ensures Copied(b, to, from, k + 1) == Copied(b, to, from, k)[to + k := Copied(b, to, from, k)[from + k]]
  {
  }

  lemma PatchMore(b: seq<byte>, o: nat, d: seq<byte>, x: byte)
    requires o + |d| < |b|
    ensures Patch(b, o, d + [x]) == Patch(b, o, d)[o + |d| := x]
  {
  }

  // ---------- forks ----------

  /** The size and all eight extent slots; unlike the host, zero counts stay in the list. */
  datatype ForkMeta = ForkMeta(size: nat, ext: seq<Extent>)

  /** The first sector of block `b`: a 32-bit product. */
  function FirstSector(bs: nat, b: nat): nat {
    Len(b, bs / SECTOR) % TWO32
  }

  predicate BlockReadable(d: Disk, bs: nat, b: nat) {
    Readable(d, FirstSector(bs, b), bs / SECTOR)
  }

  /** Where the booter looks for block `b`. */
  function Base(bs: nat, b: nat): nat {
    SECTOR * FirstSector(bs, b)
  }

  /** The disk byte the booter takes for byte `i` of a fork. */
  function BootPhys(bs: nat, blocks: seq<nat>, i: nat): (p: nat)
    requires 0 < bs && i < Len(|blocks|, bs)
    ensures BlockOf(i, bs) < |blocks| && p == Base(bs, blocks[BlockOf(i, bs)]) + Within(i, bs)
  {
    Inside(i, |blocks|, bs);
    Base(bs, blocks[BlockOf(i, bs)]) + Within(i, bs)
  }

  lemma BaseFits(bs: nat, blocks: seq<nat>, b: nat)
    requires SectorsFit(bs, blocks) && bs % SECTOR == 0 && b in blocks
    ensures Base(bs, b) == Len(b, bs) && Len(b + 1, bs) == Base(bs, b) + bs
  {
    BlockSectors(b, bs);
  }

  /** It is the fork's byte when no sector number leaves 32 bits. */
  lemma PhysFits(bs: nat, blocks: seq<nat>, i: nat)
    requires 0 < bs && SectorsFit(bs, blocks) && bs % SECTOR == 0 && i < Len(|blocks|, bs)
    ensures BootPhys(bs, blocks, i) == PhysAt(bs, blocks, i)
  {
    hide Len, BlockOf, Within, SectorsFit, Base;
    var p := BootPhys(bs, blocks, i);
    BaseFits(bs, blocks, blocks[BlockOf(i, bs)]);
    PhysIs(bs, blocks, i);
  }

  lemma PhysIs(bs: nat, blocks: seq<nat>, i: nat)
    requires 0 < bs && i < Len(|blocks|, bs)
    ensures BlockOf(i, bs) < |blocks| && PhysAt(bs, blocks, i) == Len(blocks[BlockOf(i, bs)], bs) + Within(i, bs)
  {
    Inside(i, |blocks|, bs);
  }

  lemma ChunkAt(bs: nat, blocks: seq<nat>, off: nat, k: nat)
    requires 0 < bs && off + k < Len(|blocks|, bs) && Within(off, bs) + k < bs
    ensures BootPhys(bs, blocks, off + k) == BootPhys(bs, blocks, off) + k
  {
    Cut(off, bs);
    Join(BlockOf(off, bs), Within(off, bs) + k, bs);
  }

  lemma {:induction false} BlockSectors(b: nat, bs: nat)
    requires bs % SECTOR == 0
    ensures Len(b, bs) == SECTOR * Len(b, bs / SECTOR)
  {
    if b != 0 {
      BlockSectors(b - 1, bs);
    }
  }

  /** Bytes a fork read is asked for, cut at the end of the fork. */
  function Clamped(fk: ForkMeta, off: nat, len: nat): nat
    requires off < fk.size
  {
    if off + len > fk.size then fk.size - off else len
  }

  ghost predicate ByteReadable(d: Disk, bs: nat, blocks: seq<nat>, i: nat)
    requires 0 < bs
  {
    i < Len(|blocks|, bs) && BlockOf(i, bs) < |blocks| && BlockReadable(d, bs, blocks[BlockOf(i, bs)])
  }

  /** When a fork read succeeds: the fork is not empty, the offset is inside it, its blocks fit
      the bounce buffer, and every block it needs is covered and readable. */
  ghost predicate ReadOk(d: Disk, bs: nat, fk: ForkMeta, off: nat, len: nat)
    requires 0 < bs
  {
    && fk.size != 0 && bs <= NODE_BUF && off < fk.size
    && forall i :: off <= i < off + Clamped(fk, off, len) ==> ByteReadable(d, bs, Blocks(fk.ext), i)
  }

  /** No sector number of these blocks leaves 32 bits. */
  predicate SectorsFit(bs: nat, blocks: seq<nat>) {
    forall b :: b in blocks ==> Len(b, bs / SECTOR) < TWO32
  }

  ghost predicate Holds(buf: seq<byte>, d: Disk, bs: nat, blocks: seq<nat>, off: nat, n: nat)
    requires 0 < bs
  {
    n <= |buf| && forall i :: off <= i < off + n ==> HoldsAt(buf, d, bs, blocks, off, i)
  }

  /** Byte `i` of the fork stands in the buffer that starts with byte `off`. */
  ghost predicate HoldsAt(buf: seq<byte>, d: Disk, bs: nat, blocks: seq<nat>, off: nat, i: nat)
    requires 0 < bs && off <= i < off + |buf|
  {
    i < Len(|blocks|, bs) && BootPhys(bs, blocks, i) < |d.data| && buf[i - off] == d.data[BootPhys(bs, blocks, i)]
  }

  lemma ReadableByte(d: Disk, bs: nat, blocks: seq<nat>, i: nat)
    requires 0 < bs && bs % SECTOR == 0 && ByteReadable(d, bs, blocks, i)
    ensures Base(bs, blocks[BlockOf(i, bs)]) + bs <= |d.data|
  {
  }

  lemma SectorNumber(bs: nat, b: nat)
    ensures b * (bs / SECTOR) % TWO32 == FirstSector(bs, b)
  {
    LenMul(b, bs / SECTOR);
  }

  /** Bring the block of byte `cur` into the bounce buffer. */
  method FetchBlock(d: Disk, secbuf: array<byte>, bs: nat, ext: seq<Extent>, cur: nat) returns (ok: bool)
    requires 0 < bs <= NODE_BUF <= secbuf.Length && bs % SECTOR == 0
    modifies secbuf
    ensures ok <==> ByteReadable(d, bs, Blocks(ext), cur)
    ensures ok ==> var at := Base(bs, Blocks(ext)[BlockOf(cur, bs)]);
                   at + bs <= |d.data| && secbuf[..bs] == d.data[at..at + bs]
    ensures secbuf[bs..] == old(secbuf[bs..])
  {
    hide Blocks, BlockOf, Within, Len, FirstSector;
    ghost var blocks := Blocks(ext);
    var fileBlock := cur / bs;
    Arithmetic(cur, bs);
    Inside(cur, |blocks|, bs);
    var phys := LookupBlock(ext, fileBlock);
    if phys.None? {
      return false;
    }
    SectorNumber(bs, phys.value);
    ok := DiskRead(d, phys.value * (bs / SECTOR) % TWO32, bs / SECTOR, secbuf);
    if ok {
      ReadableByte(d, bs, blocks, cur);
    }
  }

  /** One turn of the loop: bring in the block of byte `cur` and copy its useful part. */
  method ReadChunk(d: Disk, secbuf: array<byte>, bs: nat, ext: seq<Extent>, cur: nat, dst: array<byte>, out: nat,
                   left: nat)
    returns (ok: bool, chunk: nat)
    requires 0 < bs <= NODE_BUF <= secbuf.Length && bs % SECTOR == 0
    requires 0 < left && out + left <= dst.Length
    modifies secbuf, dst
    ensures 0 < chunk <= left && chunk == Min(left, bs - Within(cur, bs))
    ensures dst != secbuf ==> dst[..out] == old(dst[..out]) && dst[out + chunk..] == old(dst[out + chunk..])
    ensures ok <==> ByteReadable(d, bs, Blocks(ext), cur)
    ensures ok ==>
              && BootPhys(bs, Blocks(ext), cur) + chunk <= |d.data|
              && (dst != secbuf ==>
                    dst[out..out + chunk] == d.data[BootPhys(bs, Blocks(ext), cur)..BootPhys(bs, Blocks(ext), cur) +
                                                    chunk])
              && (dst == secbuf ==> Turned(old(secbuf[..]), secbuf[..], d, bs, Blocks(ext), cur, out, chunk))
  {
    hide Blocks, BlockOf, Within, Len, BootPhys, ByteReadable, InBlock, Copied, Turned, Base;
    var inBlock := InBlock(cur, bs);
    chunk := Min(left, bs - inBlock);
    ghost var before := secbuf[..];
    ok := FetchBlock(d, secbuf, bs, ext, cur);
    if ok {
      ghost var mid, block := secbuf[..], secbuf[..bs];
      assert block[inBlock..inBlock + chunk] == secbuf[inBlock..inBlock + chunk];
      CopyBytes(secbuf, inBlock, dst, out, chunk);
      ReadableIndex(d, bs, Blocks(ext), cur);
      ghost var at := Base(bs, Blocks(ext)[BlockOf(cur, bs)]);
      SubSlice(d.data, at, block, inBlock, chunk);
      if dst == secbuf {
        TurnedBy(before, mid, secbuf[..], d, bs, Blocks(ext), cur, out, chunk);
      }
    }
  }

  /** One turn when the destination is the bounce buffer: its first block is replaced, and part of it moved up. */
  ghost predicate Turned(a: seq<byte>, b: seq<byte>, d: Disk, bs: nat, blocks: seq<nat>, cur: nat, out: nat, chunk: nat)
    requires 0 < bs
  {
    && |b| == |a| && out + chunk <= |a| && Within(cur, bs) + chunk <= bs <= |a|
    && BlockOf(cur, bs) < |blocks| && Base(bs, blocks[BlockOf(cur, bs)]) + bs <= |d.data|
    && forall p :: 0 <= p < |a| ==> b[p] == TurnedByte(a, d, bs, Base(bs, blocks[BlockOf(cur, bs)]), Within(cur, bs),
                                                       out, chunk, p)
  }

  function TurnedByte(a: seq<byte>, d: Disk, bs: nat, at: nat, from: nat, out: nat, chunk: nat, p: nat): byte
    requires p < |a| && at + bs <= |d.data| && from + chunk <= bs
  {
    if out <= p < out + chunk then d.data[at + Source(out, from, p)]
    else if p < bs then d.data[at + p]
    else a[p]
  }

  lemma TurnedBy(a: seq<byte>, mid: seq<byte>, b: seq<byte>, d: Disk, bs: nat, blocks: seq<nat>, cur: nat, out: nat,
                 chunk: nat)
    requires 0 < bs <= |a| && |mid| == |a| && out + chunk <= |a| && Within(cur, bs) + chunk <= bs
    requires BlockOf(cur, bs) < |blocks| && Base(bs, blocks[BlockOf(cur, bs)]) + bs <= |d.data|
    requires mid[..bs] == d.data[Base(bs, blocks[BlockOf(cur, bs)])..Base(bs, blocks[BlockOf(cur, bs)]) + bs]
    requires mid[bs..] == a[bs..]
    requires b == Copied(mid, out, Within(cur, bs), chunk)
    ensures Turned(a, b, d, bs, blocks, cur, out, chunk)
  {
    hide Len, BlockOf, Within, Source, Copied;
    var at, from := Base(bs, blocks[BlockOf(cur, bs)]), Within(cur, bs);
    forall p | 0 <= p < |a| ensures b[p] == TurnedByte(a, d, bs, at, from, out, chunk, p) {
      CopySource(mid, out, from, chunk, p);
      var i := if out <= p < out + chunk then Source(out, from, p) else p;
      assert b[p] == mid[i];
      if i < bs {
        assert mid[..bs][i] == d.data[at..at + bs][i];
      } else {
        assert mid[bs..][i - bs] == a[bs..][i - bs];
      }
    }
  }

  /** The offset inside the block, as the code computes it. */
  function InBlock(cur: nat, bs: nat): (r: nat)
    requires 0 < bs
    ensures r == Within(cur, bs)
  {
    WithinBy(cur, bs);
    cur - cur / bs * bs
  }

  lemma WithinBy(cur: nat, bs: nat)
    requires 0 < bs
    ensures cur - cur / bs * bs == Within(cur, bs)
  {
    Arithmetic(cur, bs);
  }

  lemma HoldsMore(a: seq<byte>, b: seq<byte>, d: Disk, bs: nat, blocks: seq<nat>, off: nat, done: nat, chunk: nat)
    requires 0 < bs && Holds(a, d, bs, blocks, off, done) && |a| == |b| && done + chunk <= |b|
    requires 0 < chunk && Within(off + done, bs) + chunk <= bs && BlockOf(off + done, bs) < |blocks|
    requires off + done < Len(|blocks|, bs) && BootPhys(bs, blocks, off + done) + chunk <= |d.data|
    requires a[..done] == b[..done]
    requires b[done..done + chunk] == d.data[BootPhys(bs, blocks, off + done)..BootPhys(bs, blocks, off + done) + chunk]
    ensures Holds(b, d, bs, blocks, off, done + chunk)
  {
    hide BlockOf, Within, Len, BootPhys;
    var at := BootPhys(bs, blocks, off + done);
    forall i | off <= i < off + done + chunk ensures HoldsAt(b, d, bs, blocks, off, i) {
      if i < off + done {
        assert HoldsAt(a, d, bs, blocks, off, i);
        assert a[..done][i - off] == b[..done][i - off];
      } else {
        var k := i - off - done;
        BlockEnd(bs, blocks, off + done, chunk);
        ChunkAt(bs, blocks, off + done, k);
        assert b[done..done + chunk][k] == d.data[at..at + chunk][k];
      }
    }
  }

  lemma BlockEnd(bs: nat, blocks: seq<nat>, cur: nat, chunk: nat)
    requires 0 < bs && BlockOf(cur, bs) < |blocks| && Within(cur, bs) + chunk <= bs
    ensures cur + chunk <= Len(|blocks|, bs)
    ensures forall i {:trigger BlockOf(i, bs)} :: cur <= i < cur + chunk ==> BlockOf(i, bs) == BlockOf(cur, bs)
    ensures chunk == bs - Within(cur, bs) ==>
              Within(cur + chunk, bs) == 0 && cur + chunk == Len(BlockOf(cur, bs) + 1, bs)
  {
    var q := BlockOf(cur, bs);
    Cut(cur, bs);
    LenMono(q + 1, |blocks|, bs);
    Join(q + 1, 0, bs);
    forall i {:trigger BlockOf(i, bs)} | cur <= i < cur + chunk ensures BlockOf(i, bs) == q {
      Join(q, Within(cur, bs) + i - cur, bs);
    }
  }

  /** The block size in force: a zero in the header means the default. */
  function Effective(size: nat): (r: nat)
    ensures size == 0 ==> r == 4096
  {
    if size == 0 then DEFAULT_SIZE else size
  }

  /** `fork_read`. The destination may be the bounce buffer itself; then a request that leaves its
      first block does not end with the fork's bytes but with those `Origin` names. */
  method ForkRead(d: Disk, secbuf: array<byte>, blockSize: nat, fk: ForkMeta, off: nat, dst: array<byte>, len: nat)
    returns (ok: bool)
    requires NODE_BUF <= secbuf.Length && blockSize % SECTOR == 0
    requires off < fk.size ==> Clamped(fk, off, len) <= dst.Length
    modifies secbuf, dst
    ensures dst != secbuf && off < fk.size ==> dst[Clamped(fk, off, len)..] == old(dst[Clamped(fk, off, len)..])
    ensures ok <==> ReadOk(d, Effective(blockSize), fk, off, len)
    ensures ok ==>
              var bs, n := Effective(blockSize), Clamped(fk, off, len);
              && (dst != secbuf || Within(off, bs) + n <= bs ==> Holds(dst[..], d, bs, Blocks(fk.ext), off, n))
              && (dst == secbuf && Within(off, bs) + n > bs ==> Scrambled(secbuf[..], d, bs, Blocks(fk.ext), off, n))
  {
    hide Blocks, ReadState, BlockReadable, Within, BlockOf, Len, BootPhys;
    var bs := Effective(blockSize);
    ghost var blocks := Blocks(fk.ext);
    if fk.size == 0 || bs > NODE_BUF || off >= fk.size {
      return false;
    }
    var n := Clamped(fk, off, len);
    var done, left := 0, n;
    ReadStart(dst == secbuf, dst[..], d, bs, blocks, off, n);
    while left > 0
      invariant done + left == n && 0 <= done
      invariant ReadState(dst == secbuf, dst[..], d, bs, blocks, off, n, done)
      invariant dst != secbuf ==> dst[n..] == old(dst[n..])
      decreases left
    {
      ghost var before := dst[..];
      var got, chunk := ReadChunk(d, secbuf, bs, fk.ext, off + done, dst, done, left);
      if !got {
        return false;
      }
      ReadStep(dst == secbuf, before, dst[..], d, bs, blocks, off, n, done, chunk);
      done, left := done + chunk, left - chunk;
    }
    ReadEnd(dst == secbuf, dst[..], d, bs, blocks, off, n);
    return true;
  }

  /** The read loop after `done` of `n` bytes. */
  ghost predicate ReadState(aliased: bool, buf: seq<byte>, d: Disk, bs: nat, blocks: seq<nat>, off: nat, n: nat,
                            done: nat)
    requires 0 < bs
  {
    && done <= n
    && (forall i :: off <= i < off + done ==> ByteReadable(d, bs, blocks, i))
    && (!aliased || Within(off, bs) + done <= bs ==> Holds(buf, d, bs, blocks, off, done))
    && (aliased && Within(off, bs) + done > bs ==> Scrambled(buf, d, bs, blocks, off, done))
    && (done == 0 || done == n || (Within(off + done, bs) == 0 && bs <= Within(off, bs) + done))
  }

  lemma ReadStart(aliased: bool, buf: seq<byte>, d: Disk, bs: nat, blocks: seq<nat>, off: nat, n: nat)
    requires 0 < bs
    ensures ReadState(aliased, buf, d, bs, blocks, off, n, 0)
  {
  }

  lemma ReadEnd(aliased: bool, buf: seq<byte>, d: Disk, bs: nat, blocks: seq<nat>, off: nat, n: nat)
    requires 0 < bs && ReadState(aliased, buf, d, bs, blocks, off, n, n)
    ensures forall i :: off <= i < off + n ==> ByteReadable(d, bs, blocks, i)
    ensures !aliased || Within(off, bs) + n <= bs ==> Holds(buf, d, bs, blocks, off, n)
    ensures aliased && Within(off, bs) + n > bs ==> Scrambled(buf, d, bs, blocks, off, n)
  {
    hide Holds, Scrambled, ByteReadable, Within;
  }

  lemma ReadStep(aliased: bool, a: seq<byte>, b: seq<byte>, d: Disk, bs: nat, blocks: seq<nat>, off: nat, n: nat,
                 done: nat, chunk: nat)
    requires 0 < bs && ReadState(aliased, a, d, bs, blocks, off, n, done) && done < n <= |a| && |a| == |b|
    requires ByteReadable(d, bs, blocks, off + done) && chunk == Min(n - done, bs - Within(off + done, bs)) && 0 < chunk
    requires BootPhys(bs, blocks, off + done) + chunk <= |d.data|
    requires !aliased ==> a[..done] == b[..done]
    requires !aliased ==>
              b[done..done + chunk] == d.data[BootPhys(bs, blocks, off + done)..BootPhys(bs, blocks, off + done) +
                                              chunk]
    requires aliased ==> Turned(a, b, d, bs, blocks, off + done, done, chunk)
    ensures ReadState(aliased, b, d, bs, blocks, off, n, done + chunk)
  {
    hide Holds, Scrambled, Within, BlockOf, Len, BootPhys, Turned, ByteReadable;
    ReadableIndex(d, bs, blocks, off + done);
    BlockEnd(bs, blocks, off + done, chunk);
    ReadableMore(d, bs, blocks, off, done, chunk);
    if !aliased {
      HoldsMore(a, b, d, bs, blocks, off, done, chunk);
    } else if done == 0 {
      FirstTurn(a, b, d, bs, blocks, off, chunk);
    } else {
      Boundary(bs, off, done);
      NextTurn(a, b, d, bs, blocks, off, done, chunk);
    }
  }

  /** Block boundaries lie a whole number of blocks behind the first one. */
  lemma Boundary(bs: nat, off: nat, done: nat)
    requires 0 < bs && Within(off + done, bs) == 0 && bs <= Within(off, bs) + done
    ensures done == bs - Within(off, bs) || done >= 2 * bs - Within(off, bs)
  {
    Cut(off, bs);
    Cut(off + done, bs);
    var q, q' := BlockOf(off, bs), BlockOf(off + done, bs);
    if q' <= q {
      LenMono(q', q, bs);
    } else if q' > q + 1 {
      LenMono(q + 2, q', bs);
    }
  }

  /** The first chunk comes down to the start of the buffer intact. */
  lemma FirstTurn(a: seq<byte>, b: seq<byte>, d: Disk, bs: nat, blocks: seq<nat>, off: nat, chunk: nat)
    requires 0 < bs && Turned(a, b, d, bs, blocks, off, 0, chunk)
    ensures Holds(b, d, bs, blocks, off, chunk)
  {
    hide Len, BlockOf, Within;
    forall i | off <= i < off + chunk ensures HoldsAt(b, d, bs, blocks, off, i) {
      BlockEnd(bs, blocks, off, chunk);
      InBlockPhys(bs, blocks, BlockOf(off, bs), Within(off, bs) + i - off);
      Cut(off, bs);
    }
  }

  /** Byte `r` of block `q` of a fork. */
  lemma InBlockPhys(bs: nat, blocks: seq<nat>, q: nat, r: nat)
    requires q < |blocks| && r < bs
    ensures Len(q, bs) + r < Len(|blocks|, bs) && BootPhys(bs, blocks, Len(q, bs) + r) == Base(bs, blocks[q]) + r
  {
    Join(q, r, bs);
    Inside(Len(q, bs) + r, |blocks|, bs);
  }

  lemma ReadableIndex(d: Disk, bs: nat, blocks: seq<nat>, i: nat)
    requires 0 < bs && ByteReadable(d, bs, blocks, i)
    ensures i < Len(|blocks|, bs) && BlockOf(i, bs) < |blocks|
  {
  }

  lemma ReadableMore(d: Disk, bs: nat, blocks: seq<nat>, off: nat, done: nat, chunk: nat)
    requires 0 < bs && ByteReadable(d, bs, blocks, off + done) && Within(off + done, bs) + chunk <= bs
    requires forall i :: off <= i < off + done ==> ByteReadable(d, bs, blocks, i)
    ensures forall i :: off <= i < off + done + chunk ==> ByteReadable(d, bs, blocks, i)
  {
    hide BlockOf, Within, Len, BlockReadable;
    BlockEnd(bs, blocks, off + done, chunk);
    forall i | off <= i < off + done + chunk ensures ByteReadable(d, bs, blocks, i) {
      if i >= off + done {
        assert BlockOf(i, bs) == BlockOf(off + done, bs);
      }
    }
  }

  // ---------- the bounce buffer as its own destination ----------

  /** Where the last block of a request starts, counted from the start of the fork. */
  function LastStart(bs: nat, off: nat, n: nat): nat
    requires 0 < bs && 0 < n
  {
    Len(BlockOf(off + n - 1, bs), bs)
  }

  /** The byte of the fork that ends up at `p` when a request of more than one block goes into the bounce
      buffer itself. Each block passes through the first `bs` bytes, so the last one stays there; the second
      was copied up over itself if it started below `bs`; the others arrive intact. */
  function Origin(bs: nat, off: nat, n: nat, p: nat): (i: nat)
    requires 0 < bs && 0 < n
  {
    var first := bs - Within(off, bs);
    if p < bs && off + p < LastStart(bs, off, n) then LastStart(bs, off, n) + p
    else if first <= p < first + bs then off + first + Within(p - first, first)
    else off + p
  }

  /** Byte `i` of the fork stands at `p` of the buffer. */
  ghost predicate FromFork(buf: seq<byte>, d: Disk, bs: nat, blocks: seq<nat>, p: nat, i: nat)
    requires 0 < bs && p < |buf|
  {
    i < Len(|blocks|, bs) && BootPhys(bs, blocks, i) < |d.data| && buf[p] == d.data[BootPhys(bs, blocks, i)]
  }

  ghost predicate Scrambled(buf: seq<byte>, d: Disk, bs: nat, blocks: seq<nat>, off: nat, n: nat)
    requires 0 < bs
  {
    0 < n <= |buf| && forall p :: 0 <= p < n ==> FromFork(buf, d, bs, blocks, p, Origin(bs, off, n, p))
  }

  lemma NextTurn(a: seq<byte>, b: seq<byte>, d: Disk, bs: nat, blocks: seq<nat>, off: nat, done: nat, chunk: nat)
    requires 0 < bs && 0 < done && 0 < chunk && Turned(a, b, d, bs, blocks, off + done, done, chunk)
    requires Within(off + done, bs) == 0
    requires done == bs - Within(off, bs) || done >= 2 * bs - Within(off, bs)
    requires Within(off, bs) + done > bs ==> Scrambled(a, d, bs, blocks, off, done)
    ensures Scrambled(b, d, bs, blocks, off, done + chunk)
  {
    hide Len, BlockOf, Within, BootPhys, TurnedByte, Origin, FromFork;
    var n := done + chunk;
    forall p | 0 <= p < n ensures FromFork(b, d, bs, blocks, p, Origin(bs, off, n, p)) {
      if p < done && p >= bs {
        KeptByte(a, b, d, bs, blocks, off, done, chunk, p);
      } else {
        NewByte(a, b, d, bs, blocks, off, done, chunk, p);
      }
    }
  }

  lemma LastTurn(bs: nat, blocks: seq<nat>, off: nat, done: nat, chunk: nat)
    requires 0 < bs && 0 < chunk <= bs && Within(off + done, bs) == 0 && BlockOf(off + done, bs) < |blocks|
    ensures LastStart(bs, off, done + chunk) == off + done == Len(BlockOf(off + done, bs), bs)
  {
    BlockEnd(bs, blocks, off + done, chunk);
    Cut(off + done, bs);
    assert BlockOf(off + done + chunk - 1, bs) == BlockOf(off + done, bs);
  }

  lemma KeptByte(a: seq<byte>, b: seq<byte>, d: Disk, bs: nat, blocks: seq<nat>, off: nat, done: nat, chunk: nat,
                 p: nat)
    requires 0 < bs <= p < done && 0 < chunk && Turned(a, b, d, bs, blocks, off + done, done, chunk)
    requires Within(off + done, bs) == 0 && Scrambled(a, d, bs, blocks, off, done)
    ensures FromFork(b, d, bs, blocks, p, Origin(bs, off, done + chunk, p))
  {
    hide Len, BlockOf, Within, BootPhys;
    assert FromFork(a, d, bs, blocks, p, Origin(bs, off, done, p));
    assert Origin(bs, off, done, p) == Origin(bs, off, done + chunk, p);
  }

  lemma NewByte(a: seq<byte>, b: seq<byte>, d: Disk, bs: nat, blocks: seq<nat>, off: nat, done: nat, chunk: nat, p: nat)
    requires 0 < bs && 0 < done && 0 < chunk && Turned(a, b, d, bs, blocks, off + done, done, chunk)
    requires Within(off + done, bs) == 0 && p < done + chunk && (p >= done || p < bs)
    requires done == bs - Within(off, bs) || done >= 2 * bs - Within(off, bs)
    ensures FromFork(b, d, bs, blocks, p, Origin(bs, off, done + chunk, p))
  {
    hide Len, BlockOf, Within, BootPhys;
    LastTurn(bs, blocks, off, done, chunk);
    var r := if p < done then p else Within(p - done, done);
    SmallWithin(p, done, bs);
    InBlockPhys(bs, blocks, BlockOf(off + done, bs), r);
    assert Origin(bs, off, done + chunk, p) == off + done + r;
  }

  lemma SmallWithin(p: nat, done: nat, bs: nat)
    requires 0 < done
    ensures p >= done && p - done < done ==> Within(p - done, done) == p - done
    ensures p >= done ==> Within(p - done, done) <= p - done
  {
    if p >= done {
      Cut(p - done, done);
    }
  }

  /** A request of more than one block into the bounce buffer is right exactly when every byte of the fork it asks
      for equals the byte that ends up in its place. */
  lemma AliasedReadRight(buf: seq<byte>, d: Disk, bs: nat, blocks: seq<nat>, off: nat, n: nat)
    requires 0 < bs && Scrambled(buf, d, bs, blocks, off, n)
    requires OnDisk(d, bs, blocks) && off + n <= Len(|blocks|, bs)
    ensures forall p :: 0 <= p < n ==> Origin(bs, off, n, p) < Len(|blocks|, bs)
    ensures var view := Seen(d, bs, blocks);
            Holds(buf, d, bs, blocks, off, n) <==> forall p :: 0 <= p < n ==>
                view[off + p] == view[Origin(bs, off, n, p)]
  {
    hide BootPhys, Len, Seen, Origin;
    var view := Seen(d, bs, blocks);
    forall p | 0 <= p < n ensures Origin(bs, off, n, p) < Len(|blocks|, bs) && buf[p] == view[Origin(bs, off, n, p)] {
      assert FromFork(buf, d, bs, blocks, p, Origin(bs, off, n, p));
    }
    HoldsView(buf, d, bs, blocks, off, n);
    if Holds(buf, d, bs, blocks, off, n) {
      forall p | 0 <= p < n ensures view[off + p] == view[Origin(bs, off, n, p)] {
        assert buf[..n][p] == view[off..off + n][p];
      }
    }
  }

  /** From the start of a block: everything behind the first block is right, the first block is the last one, and
      so the whole is right exactly when those two blocks are equal. */
  lemma AlignedReadRight(buf: seq<byte>, d: Disk, bs: nat, blocks: seq<nat>, off: nat, n: nat)
    requires 0 < bs && Scrambled(buf, d, bs, blocks, off, n) && Within(off, bs) == 0 && n > bs
    requires OnDisk(d, bs, blocks) && off + n <= Len(|blocks|, bs)
    ensures var view, last := Seen(d, bs, blocks), LastStart(bs, off, n);
            && off + bs <= last <= |view| - bs
            && buf[..bs] == view[last..last + bs] && buf[bs..n] == view[off + bs..off + n]
            && (Holds(buf, d, bs, blocks, off, n) <==> view[off..off + bs] == view[last..last + bs])
  {
    hide BootPhys, Len, Seen, BlockOf, Within, Holds, Origin, LastStart, Scrambled;
    var view, last := Seen(d, bs, blocks), LastStart(bs, off, n);
    LastInside(bs, blocks, off, n);
    AlignedBytes(buf, d, bs, blocks, off, n);
    HoldsView(buf, d, bs, blocks, off, n);
    var x, y := view[off..off + bs], view[last..last + bs];
    assert buf[..bs] == y && buf[bs..n] == view[off + bs..off + n];
    assert buf[..n] == buf[..bs] + buf[bs..n];
    assert view[off..off + n] == x + view[off + bs..off + n];
    assert x == (x + view[off + bs..off + n])[..bs] && y == (y + view[off + bs..off + n])[..bs];
  }

  lemma AlignedBytes(buf: seq<byte>, d: Disk, bs: nat, blocks: seq<nat>, off: nat, n: nat)
    requires 0 < bs && Scrambled(buf, d, bs, blocks, off, n) && Within(off, bs) == 0 && n > bs
    requires OnDisk(d, bs, blocks) && off + n <= Len(|blocks|, bs)
    requires off + bs <= LastStart(bs, off, n) && LastStart(bs, off, n) + bs <= Len(|blocks|, bs)
    ensures var view := Seen(d, bs, blocks);
            n <= |buf| && forall p :: 0 <= p < n ==> buf[p] == if p < bs then view[LastStart(bs, off, n) + p]
                else view[off + p]
  {
    hide BootPhys, Len, Seen, BlockOf, Within, LastStart, Origin;
    var view, last := Seen(d, bs, blocks), LastStart(bs, off, n);
    forall p | 0 <= p < n ensures buf[p] == if p < bs then view[last + p] else view[off + p] {
      AlignedOrigin(bs, off, n, p);
      assert FromFork(buf, d, bs, blocks, p, Origin(bs, off, n, p));
    }
  }

  lemma AlignedOrigin(bs: nat, off: nat, n: nat, p: nat)
    requires 0 < bs < n && Within(off, bs) == 0 && p < n && off + bs <= LastStart(bs, off, n)
    ensures Origin(bs, off, n, p) == if p < bs then LastStart(bs, off, n) + p else off + p
  {
    hide Within, LastStart;
    SmallWithin(p, bs, bs);
  }

  lemma LastInside(bs: nat, blocks: seq<nat>, off: nat, n: nat)
    requires 0 < bs < n && Within(off, bs) == 0 && off + n <= Len(|blocks|, bs)
    ensures off + bs <= LastStart(bs, off, n) && LastStart(bs, off, n) + bs <= Len(|blocks|, bs)
  {
    var q, l := BlockOf(off, bs), BlockOf(off + n - 1, bs);
    Cut(off, bs);
    Cut(off + n - 1, bs);
    Inside(off + n - 1, |blocks|, bs);
    LenMono(l + 1, |blocks|, bs);
    if l <= q {
      LenMono(l, q, bs);
    } else {
      LenMono(q + 1, l, bs);
    }
  }

  /** Every block lies on the disk, where the booter looks for it. */
  predicate OnDisk(d: Disk, bs: nat, blocks: seq<nat>) {
    forall b :: b in blocks ==> Base(bs, b) + bs <= |d.data|
  }

  /** The contents of a fork as the booter sees it. */
  function Seen(d: Disk, bs: nat, blocks: seq<nat>): (v: seq<byte>)
    requires 0 < bs && OnDisk(d, bs, blocks)
    ensures |v| == Len(|blocks|, bs)
    ensures forall i :: 0 <= i < |v| ==> v[i] == SeenAt(d, bs, blocks, i)
  {
    seq(Len(|blocks|, bs), i requires 0 <= i < Len(|blocks|, bs) => SeenAt(d, bs, blocks, i))
  }

  function SeenAt(d: Disk, bs: nat, blocks: seq<nat>, i: nat): (x: byte)
    requires 0 < bs && OnDisk(d, bs, blocks) && i < Len(|blocks|, bs)
    ensures BootPhys(bs, blocks, i) < |d.data| && x == d.data[BootPhys(bs, blocks, i)]
  {
    var p := BootPhys(bs, blocks, i);
    assert blocks[BlockOf(i, bs)] in blocks;
    d.data[p]
  }

  /** It is the fork's own contents when no sector number leaves 32 bits. */
  lemma SeenFits(d: Disk, bs: nat, blocks: seq<nat>)
    requires 0 < bs && bs % SECTOR == 0 && SectorsFit(bs, blocks) && InImage(d.data, bs, blocks)
    ensures OnDisk(d, bs, blocks) && Seen(d, bs, blocks) == View(d.data, bs, blocks)
  {
    hide Len, BlockOf, Within, SectorsFit, Base, PhysAt, BootPhys;
    forall b | b in blocks ensures Base(bs, b) + bs <= |d.data| {
      BaseFits(bs, blocks, b);
    }
    var x, y := Seen(d, bs, blocks), View(d.data, bs, blocks);
    forall i | 0 <= i < |x| ensures x[i] == y[i] {
      PhysFits(bs, blocks, i);
      assert x[i] == SeenAt(d, bs, blocks, i) && y[i] == ByteAt(d.data, bs, blocks, i);
    }
  }

  lemma HoldsView(buf: seq<byte>, d: Disk, bs: nat, blocks: seq<nat>, off: nat, n: nat)
    requires 0 < bs && OnDisk(d, bs, blocks) && off + n <= Len(|blocks|, bs) && n <= |buf|
    ensures Holds(buf, d, bs, blocks, off, n) <==> buf[..n] == Seen(d, bs, blocks)[off..off + n]
  {
    hide BootPhys, Len, Within, BlockOf, Seen;
    var view := Seen(d, bs, blocks);
    var x, y := buf[..n], view[off..off + n];
    if Holds(buf, d, bs, blocks, off, n) {
      forall k | 0 <= k < n ensures x[k] == y[k] {
        assert HoldsAt(buf, d, bs, blocks, off, off + k);
        assert y[k] == view[off + k] == SeenAt(d, bs, blocks, off + k);
      }
    }
    if x == y {
      forall i | off <= i < off + n ensures HoldsAt(buf, d, bs, blocks, off, i) {
        assert x[i - off] == y[i - off] == view[i] == SeenAt(d, bs, blocks, i);
      }
    }
  }

  const KERNEL_BLOCK_MAX := 4096

  /** The kernel's own lookup of a catalog node. It only knows nodes as large as blocks, and takes block 0 for "not
      found". Where it succeeds it names the block that holds the node, unless the 32-bit sum wrapped. */
  method KernelNodeBlock(ext: seq<Extent>, bs: nat, ns: nat, node: nat) returns (phys: Option<nat>)
    ensures phys.Some? <==> && 0 < ns <= 4096 && ns == bs
                            && node < |Blocks(ext)| && Blocks(ext)[node] % TWO32 != 0
    ensures phys.Some? ==> && phys.value == Blocks(ext)[node] % TWO32 && Len(node, ns) < Len(|Blocks(ext)|, bs)
                           && (Blocks(ext)[node] < TWO32 ==>
                               Len(phys.value, bs) == PhysAt(bs, Blocks(ext), Len(node, ns)))
  {
    if ns == 0 || bs == 0 || ns > KERNEL_BLOCK_MAX || ns != bs {
      return None;
    }
    Join(node, 0, bs);
    Inside(Len(node, ns), |Blocks(ext)|, bs);
    var perBlock := bs / ns;
    var logical: nat := node / perBlock;
    var physical := 0;
    var i := 0;
    assert ext[0..] == ext;
    while i < |ext|
      invariant 0 <= i <= |ext| && physical == 0
      invariant node < |Blocks(ext)| <==> logical < |Blocks(ext[i..])|
      invariant logical < |Blocks(ext[i..])| ==> Blocks(ext)[node] == Blocks(ext[i..])[logical]
    {
      assert ext[i..][1..] == ext[i + 1..];
      if ext[i].count != 0 {
        if logical < ext[i].count {
          physical := (ext[i].start + logical) % TWO32;
          break;
        }
        logical := logical - ext[i].count;
      }
      i := i + 1;
    }
    if physical == 0 {
      return None;
    }
    return Some(physical);
  }
}
