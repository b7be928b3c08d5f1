/**
  The booter's disk is the virtio queue. The replies of any run are those of a disk with some failing sectors, so what
  is proved of reads from such a disk holds of reads over the queue.
  */
module QueueDisk {
  import opened Bytes
  import opened Blocking
  import opened Machine
  import opened HfsExtents
  import opened HfsBooter
  import V = VirtioBlk

  /** A completed call of `virtio_blk_read_blocks`. */
  datatype Reply = Reply(lba: nat, count: nat, ok: bool)

  /** The calls with these replies have returned at these points of the run. */
  ghost predicate Answers(c: V.Config, states: seq<V.State>, acts: seq<V.Action>, at: seq<nat>, rs: seq<Reply>) {
    && V.IsRun(c, states, acts) && |at| == |rs|
    && forall i :: 0 <= i < |rs| ==> at[i] < |states| && rs[i].count != 0 && ReplyAt(states[at[i]], rs[i])
  }

  predicate ReplyAt(s: V.State, r: Reply) {
    s.driver.Done? && Reply(s.driver.r.lba, s.driver.r.count, s.driver.ok) == r
  }

  function Sectors(r: Reply): (all: set<nat>)
    ensures forall s: nat :: s in all <==> r.lba <= s < r.lba + r.count
    decreases r.count
  {
    if r.count == 0 then {} else Sectors(r.(count := r.count - 1)) + {r.lba + r.count - 1}
  }

  /** The sectors of the calls that failed. */
  function Bad(rs: seq<Reply>): set<nat> {
    if rs == [] then {} else Bad(rs[1..]) + if rs[0].ok then {} else Sectors(rs[0])
  }

  lemma {:induction false} BadExact(rs: seq<Reply>, s: nat)
    ensures s in Bad(rs) <==> exists r :: r in rs && !r.ok && s in Sectors(r)
  {
    hide Sectors;
    if rs != [] {
      BadExact(rs[1..], s);
      assert rs == [rs[0]] + rs[1..];
      if s in Bad(rs) && s !in Bad(rs[1..]) {
        assert rs[0] in rs;
      }
    }
  }

  /** No sector was read by one call and refused to another. */
  predicate Consistent(rs: seq<Reply>) {
    forall a, b :: a in rs && b in rs && a.ok && !b.ok ==> Sectors(a) !! Sectors(b)
  }

  /** What the booter takes for granted of its disk, a run of the queue supplies: a call succeeds exactly when its
      sectors are there and none is bad, and then the buffer holds them. */
  lemma QueueSupplies(c: V.Config, states: seq<V.State>, acts: seq<V.Action>, at: seq<nat>, rs: seq<Reply>, i: nat)
    requires Answers(c, states, acts, at, rs) && Consistent(rs) && i < |rs|
    ensures var d, r, s := Disk(c.disk, Bad(rs)), rs[i], states[at[i]];
            && (r.ok <==> Readable(d, r.lba, r.count))
            && |s.mem| == |s.base| == TWO32 && s.driver.r.buf + SECTOR * r.count <= TWO32
            && V.Framed(c, s.mem, s.base, s.driver.r)
            && (r.ok ==> s.mem[s.driver.r.buf..s.driver.r.buf + SECTOR * r.count]
                         == d.data[SECTOR * r.lba..SECTOR * (r.lba + r.count)])
  {
    hide V.IsRun, Sectors, Bad, V.Framed, V.Inv;
    var d, r, s := Disk(c.disk, Bad(rs)), rs[i], states[at[i]];
    assert r in rs;
    Returned(c, states, acts, at[i]);
    if r.ok {
      V.ReadReturnsSectors(c, states, acts, at[i]);
      forall n | r.lba <= n < r.lba + r.count ensures n !in d.bad {
        BadExact(rs, n);
        assert n in Sectors(r);
      }
    } else {
      assert r.lba in Sectors(r);
      BadExact(rs, r.lba);
    }
  }

  lemma Returned(c: V.Config, states: seq<V.State>, acts: seq<V.Action>, i: nat)
    requires V.IsRun(c, states, acts) && i < |states| && states[i].driver.Done?
    ensures var s := states[i]; V.Shapes(s) && V.ValidReq(c, s.driver.r) && V.Framed(c, s.mem, s.base, s.driver.r)
  {
    hide V.IsRun, V.Framed, V.DriverOk;
    V.RunInv(c, states, acts, i);
  }

  // ---------- fork reads ----------

  /** The call for block `b`, with this outcome. */
  function BlockReply(bs: nat, b: nat, ok: bool): Reply {
    Reply(FirstSector(bs, b), bs / SECTOR, ok)
  }

  lemma BlockAnswered(c: V.Config, states: seq<V.State>, acts: seq<V.Action>, at: seq<nat>, rs: seq<Reply>, bs: nat,
                      b: nat, ok: bool)
    requires Answers(c, states, acts, at, rs) && Consistent(rs) && BlockReply(bs, b, ok) in rs
    ensures BlockReadable(Disk(c.disk, Bad(rs)), bs, b) <==> ok
  {
    hide Answers, Consistent, Bad, FirstSector;
    var i :| 0 <= i < |rs| && rs[i] == BlockReply(bs, b, ok);
    QueueSupplies(c, states, acts, at, rs, i);
  }

  /** The block of byte `i` of the fork was asked for, with this outcome. */
  ghost predicate Asked(rs: seq<Reply>, bs: nat, blocks: seq<nat>, i: nat, ok: bool)
    requires 0 < bs
  {
    BlockOf(i, bs) < |blocks| && BlockReply(bs, blocks[BlockOf(i, bs)], ok) in rs
  }

  /** The calls a fork read makes: the blocks of all its bytes, or up to one that failed. */
  ghost predicate Served(rs: seq<Reply>, bs: nat, fk: ForkMeta, off: nat, len: nat)
    requires 0 < bs && off < fk.size
  {
    var blocks, n := Blocks(fk.ext), Clamped(fk, off, len);
    || (exists i :: off <= i < off + n && i < Len(|blocks|, bs) && Asked(rs, bs, blocks, i, false))
    || (forall i :: off <= i < off + n && i < Len(|blocks|, bs) ==> Asked(rs, bs, blocks, i, true))
  }

  /** A fork read over the queue succeeds exactly when the extents cover its bytes and no call for one of them failed.
      */
  lemma ServedExact(c: V.Config, states: seq<V.State>, acts: seq<V.Action>, at: seq<nat>, rs: seq<Reply>, bs: nat,
                    fk: ForkMeta, off: nat, len: nat)
    requires Answers(c, states, acts, at, rs) && Consistent(rs) && 0 < bs <= NODE_BUF && off < fk.size
    requires Served(rs, bs, fk, off, len)
    ensures ReadOk(Disk(c.disk, Bad(rs)), bs, fk, off, len) <==> NoneRefused(rs, bs, fk, off, len)
  {
    hide Answers, Consistent, Bad, Len, BlockOf, Blocks, BlockReadable, Asked;
    var d, blocks, n := Disk(c.disk, Bad(rs)), Blocks(fk.ext), Clamped(fk, off, len);
    forall i | off <= i < off + n
      ensures Asked(rs, bs, blocks, i, false) ==> !ByteReadable(d, bs, blocks, i)
      ensures i < Len(|blocks|, bs) && Asked(rs, bs, blocks, i, true) ==> ByteReadable(d, bs, blocks, i)
    {
      AskedByte(c, states, acts, at, rs, bs, blocks, i);
    }
    if i :| off <= i < off + n && i < Len(|blocks|, bs) && Asked(rs, bs, blocks, i, false) {
      assert !ByteReadable(d, bs, blocks, i);
    } else if ReadOk(d, bs, fk, off, len) {
      assert n != 0 ==> ByteReadable(d, bs, blocks, off + n - 1);
      forall i | off <= i < off + n ensures !Asked(rs, bs, blocks, i, false) {
        assert ByteReadable(d, bs, blocks, i);
      }
    } else if NoneRefused(rs, bs, fk, off, len) {
      forall i | off <= i < off + n ensures ByteReadable(d, bs, blocks, i) {
        assert Asked(rs, bs, blocks, i, true);
      }
    }
  }

  /** The extents cover the request and no call for one of its blocks failed. */
  ghost predicate NoneRefused(rs: seq<Reply>, bs: nat, fk: ForkMeta, off: nat, len: nat)
    requires 0 < bs && off < fk.size
  {
    var blocks, n := Blocks(fk.ext), Clamped(fk, off, len);
    && (n == 0 || off + n <= Len(|blocks|, bs))
    && forall i :: off <= i < off + n ==> !Asked(rs, bs, blocks, i, false)
  }

  lemma AskedByte(c: V.Config, states: seq<V.State>, acts: seq<V.Action>, at: seq<nat>, rs: seq<Reply>, bs: nat,
                  blocks: seq<nat>, i: nat)
    requires Answers(c, states, acts, at, rs) && Consistent(rs) && 0 < bs
    ensures var d := Disk(c.disk, Bad(rs));
            && (Asked(rs, bs, blocks, i, false) ==> !ByteReadable(d, bs, blocks, i))
            && (i < Len(|blocks|, bs) && Asked(rs, bs, blocks, i, true) ==> ByteReadable(d, bs, blocks, i))
  {
    hide Answers, Consistent, Bad, Len, BlockOf, BlockReadable;
    if Asked(rs, bs, blocks, i, false) {
      BlockAnswered(c, states, acts, at, rs, bs, blocks[BlockOf(i, bs)], false);
    }
    if Asked(rs, bs, blocks, i, true) {
      BlockAnswered(c, states, acts, at, rs, bs, blocks[BlockOf(i, bs)], true);
    }
  }

  /** The same as a program: whatever the queue did, the read is that of the disk behind it. */
  method QueuedForkRead(disk: seq<byte>, rs: seq<Reply>, secbuf: array<byte>, blockSize: nat, fk: ForkMeta, off: nat,
                        dst: array<byte>, len: nat, ghost c: V.Config, ghost states: seq<V.State>,
                        ghost acts: seq<V.Action>, ghost at: seq<nat>)
    returns (ok: bool)
    requires disk == c.disk && Answers(c, states, acts, at, rs) && Consistent(rs)
    requires NODE_BUF <= secbuf.Length && blockSize % SECTOR == 0 && Effective(blockSize) <= NODE_BUF
    requires off < fk.size && Clamped(fk, off, len) <= dst.Length && dst != secbuf
    requires Served(rs, Effective(blockSize), fk, off, len)
    modifies secbuf, dst
    ensures var bs, blocks, n := Effective(blockSize), Blocks(fk.ext), Clamped(fk, off, len);
            && (ok <==> NoneRefused(rs, bs, fk, off, len))
            && (ok ==> Holds(dst[..], Disk(disk, {}), bs, blocks, off, n))
    ensures dst[Clamped(fk, off, len)..] == old(dst[Clamped(fk, off, len)..])
  {
    hide Answers, Consistent, Bad, Len, BlockOf, Blocks, Served, NoneRefused, ReadOk, Within, Holds;
    ServedExact(c, states, acts, at, rs, Effective(blockSize), fk, off, len);
    ok := ForkRead(Disk(disk, Bad(rs)), secbuf, blockSize, fk, off, dst, len);
    if ok {
      HoldsData(dst[..], Disk(disk, Bad(rs)), Disk(disk, {}), Effective(blockSize), Blocks(fk.ext), off,
                Clamped(fk, off, len));
    }
  }

  lemma HoldsData(buf: seq<byte>, d: Disk, e: Disk, bs: nat, blocks: seq<nat>, off: nat, n: nat)
    requires 0 < bs && d.data == e.data && Holds(buf, d, bs, blocks, off, n)
    ensures Holds(buf, e, bs, blocks, off, n)
  {
    forall i | off <= i < off + n ensures HoldsAt(buf, e, bs, blocks, off, i) {
      assert HoldsAt(buf, d, bs, blocks, off, i);
    }
  }
}
