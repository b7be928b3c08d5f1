/**
  Forks of an HFS+ volume: extent lists, the block a logical block falls in, and the two
  loops of the host-side image tool that read and write a fork through its extents.
  */
module HfsExtents {
  import opened Bytes
  import opened Blocking

  datatype Extent = Extent(start: nat, count: nat)

  datatype Fork = Fork(size: nat, extents: seq<Extent>)

  // ---------- the flattened extent list: the reference every reader is compared with ----------

  function Run(start: nat, count: nat): (r: seq<nat>)
    ensures |r| == count && forall i :: 0 <= i < count ==> r[i] == start + i
  {
    seq(count, i requires 0 <= i => start + i)
  }

  /** The physical blocks of a fork, in logical order. */
  function Blocks(ext: seq<Extent>): seq<nat> {
    if ext == [] then [] else Run(ext[0].start, ext[0].count) + Blocks(ext[1..])
  }

  function NonEmpty(ext: seq<Extent>): seq<Extent> {
    if ext == [] then []
    else if ext[0].count == 0 then NonEmpty(ext[1..])
    else [ext[0]] + NonEmpty(ext[1..])
  }

  /** Dropping zero-count extents, as the host does, leaves the block list alone. */
  lemma {:induction false} NonEmptyBlocks(ext: seq<Extent>)
    ensures Blocks(NonEmpty(ext)) == Blocks(ext)
    ensures |NonEmpty(ext)| <= |ext|
    ensures forall e :: e in NonEmpty(ext) ==> e in ext && e.count != 0
  {
    if ext != [] {
      NonEmptyBlocks(ext[1..]);
      if ext[0].count != 0 {
        assert ([ext[0]] + NonEmpty(ext[1..]))[1..] == NonEmpty(ext[1..]);
      }
    }
  }

  lemma {:induction false} BlocksAppend(a: seq<Extent>, b: seq<Extent>)
    ensures Blocks(a + b) == Blocks(a) + Blocks(b)
  {
    if a == [] {
      assert a + b == b;
    } else {
      assert (a + b)[1..] == a[1..] + b;
      BlocksAppend(a[1..], b);
    }
  }

  predicate NoDup(blocks: seq<nat>) {
    forall i, j :: 0 <= i < j < |blocks| ==> blocks[i] != blocks[j]
  }

  predicate Apart(a: seq<nat>, b: seq<nat>) {
    forall x :: x in a ==> x !in b
  }

  predicate InImage(img: seq<byte>, bs: nat, blocks: seq<nat>) {
    forall b :: b in blocks ==> Len(b + 1, bs) <= |img|
  }

  // ---------- the walk down the extent list ----------

  /** The inner loop of both fork loops: find the extent that holds a logical block. */
  method LookupBlock(extents: seq<Extent>, logical: nat) returns (phys: Option<nat>)
    ensures phys.Some? <==> logical < |Blocks(extents)|
    ensures phys.Some? ==> phys.value == Blocks(extents)[logical]
  {
    var cursor: nat := logical;
    var i := 0;
    assert extents[0..] == extents;
    while i < |extents|
      invariant 0 <= i <= |extents|
      invariant logical < |Blocks(extents)| <==> cursor < |Blocks(extents[i..])|
      invariant cursor < |Blocks(extents[i..])| ==> Blocks(extents)[logical] == Blocks(extents[i..])[cursor]
    {
      var e := extents[i];
      assert extents[i..][1..] == extents[i + 1..];
      if cursor < e.count {
        return Some(e.start + cursor);
      }
      cursor := cursor - e.count;
      i := i + 1;
    }
    return None;
  }

  // ---------- bytes of a fork ----------

  /** The image byte that holds logical byte `i` of the fork with these blocks. */
  function PhysAt(bs: nat, blocks: seq<nat>, i: nat): (p: nat)
    requires 0 < bs && i < Len(|blocks|, bs)
    ensures BlockOf(i, bs) < |blocks|
    ensures BlockOf(p, bs) == blocks[BlockOf(i, bs)] && Within(p, bs) == Within(i, bs)
    ensures p < Len(blocks[BlockOf(i, bs)] + 1, bs)
  {
    Inside(i, |blocks|, bs);
    var b := blocks[BlockOf(i, bs)];
    Join(b, Within(i, bs), bs);
    Len(b, bs) + Within(i, bs)
  }

  /** Logical byte `i` of a fork. */
  function ByteAt(img: seq<byte>, bs: nat, blocks: seq<nat>, i: nat): (x: byte)
    requires 0 < bs && InImage(img, bs, blocks) && i < Len(|blocks|, bs)
    ensures PhysAt(bs, blocks, i) < |img|
  {
    var p := PhysAt(bs, blocks, i);
    assert blocks[BlockOf(i, bs)] in blocks;
    img[p]
  }

  /** The whole contents of a fork, block after block. */
  function View(img: seq<byte>, bs: nat, blocks: seq<nat>): (v: seq<byte>)
    requires 0 < bs && InImage(img, bs, blocks)
    ensures |v| == Len(|blocks|, bs)
    ensures forall i :: 0 <= i < |v| ==> v[i] == ByteAt(img, bs, blocks, i)
  {
    seq(Len(|blocks|, bs), i requires 0 <= i < Len(|blocks|, bs) => ByteAt(img, bs, blocks, i))
  }

  /** Distinct logical bytes of a fork without repeated blocks live at distinct image bytes. */
  lemma PhysInjective(bs: nat, blocks: seq<nat>, i: nat, j: nat)
    requires 0 < bs && i < Len(|blocks|, bs) && j < Len(|blocks|, bs) && NoDup(blocks)
    requires PhysAt(bs, blocks, i) == PhysAt(bs, blocks, j)
    ensures i == j
  {
    Cut(i, bs);
    Cut(j, bs);
  }

  /** Byte-by-byte write through the block list, first byte first. */
  function Scatter(img: seq<byte>, bs: nat, blocks: seq<nat>, off: nat, data: seq<byte>): (r: seq<byte>)
    requires 0 < bs && InImage(img, bs, blocks) && off + |data| <= Len(|blocks|, bs)
    ensures |r| == |img|
    decreases |data|
  {
    if data == [] then img
    else
      var last := |data| - 1;
      var p := PhysAt(bs, blocks, off + last);
      assert blocks[BlockOf(off + last, bs)] in blocks;
      Scatter(img, bs, blocks, off, data[..last])[p := data[last]]
  }

  /** A scatter writes nothing outside the fork's own blocks. */
  lemma {:induction false} ScatterFrame(img: seq<byte>, bs: nat, blocks: seq<nat>, off: nat, data: seq<byte>, p: nat)
    requires 0 < bs && InImage(img, bs, blocks) && off + |data| <= Len(|blocks|, bs)
    requires p < |img| && BlockOf(p, bs) !in blocks
    ensures Scatter(img, bs, blocks, off, data)[p] == img[p]
    decreases |data|
  {
    if data != [] {
      ScatterFrame(img, bs, blocks, off, data[..|data| - 1], p);
      assert BlockOf(PhysAt(bs, blocks, off + |data| - 1), bs) in blocks;
    }
  }

  lemma {:induction false} ScatterAt(img: seq<byte>, bs: nat, blocks: seq<nat>, off: nat, data: seq<byte>, i: nat)
    requires 0 < bs && InImage(img, bs, blocks) && off + |data| <= Len(|blocks|, bs)
    requires NoDup(blocks) && i < Len(|blocks|, bs)
    ensures PhysAt(bs, blocks, i) < |img|
    ensures Scatter(img, bs, blocks, off, data)[PhysAt(bs, blocks, i)]
         == if off <= i < off + |data| then data[i - off] else img[PhysAt(bs, blocks, i)]
    decreases |data|
  {
    hide BlockOf, Within, Len, PhysAt;
    var x := ByteAt(img, bs, blocks, i);
    if data != [] {
      var last := |data| - 1;
      ScatterAt(img, bs, blocks, off, data[..last], i);
      if PhysAt(bs, blocks, i) == PhysAt(bs, blocks, off + last) {
        PhysInjective(bs, blocks, i, off + last);
      }
    }
  }

  /** Writing through the extents patches the fork's contents, and nothing else of it. */
  lemma ScatterView(img: seq<byte>, bs: nat, blocks: seq<nat>, off: nat, data: seq<byte>)
    requires 0 < bs && InImage(img, bs, blocks) && off + |data| <= Len(|blocks|, bs) && NoDup(blocks)
    ensures View(Scatter(img, bs, blocks, off, data), bs, blocks) == Patch(View(img, bs, blocks), off, data)
  {
    var r := Scatter(img, bs, blocks, off, data);
    forall i | 0 <= i < Len(|blocks|, bs)
      ensures View(r, bs, blocks)[i] == Patch(View(img, bs, blocks), off, data)[i]
    {
      ScatterAt(img, bs, blocks, off, data, i);
    }
  }

  /** Images that agree on a fork's blocks give it the same contents. */
  lemma ViewFrame(img: seq<byte>, img': seq<byte>, bs: nat, blocks: seq<nat>)
    requires 0 < bs && InImage(img, bs, blocks) && |img| == |img'|
    requires forall p :: 0 <= p < |img| && BlockOf(p, bs) in blocks ==> img'[p] == img[p]
    ensures View(img', bs, blocks) == View(img, bs, blocks)
  {
    forall i | 0 <= i < Len(|blocks|, bs) ensures View(img', bs, blocks)[i] == View(img, bs, blocks)[i] {
      var p := PhysAt(bs, blocks, i);
      assert blocks[BlockOf(i, bs)] in blocks;
      assert img'[p] == img[p];
    }
  }

  /** A scatter into one fork leaves a fork with other blocks alone. */
  lemma ScatterOther(img: seq<byte>, bs: nat, blocks: seq<nat>, off: nat, data: seq<byte>, other: seq<nat>)
    requires 0 < bs && InImage(img, bs, blocks) && off + |data| <= Len(|blocks|, bs)
    requires InImage(img, bs, other) && Apart(other, blocks)
    ensures View(Scatter(img, bs, blocks, off, data), bs, other) == View(img, bs, other)
  {
    var r := Scatter(img, bs, blocks, off, data);
    forall p | 0 <= p < |img| && BlockOf(p, bs) in other ensures r[p] == img[p] {
      ScatterFrame(img, bs, blocks, off, data, p);
    }
    ViewFrame(img, r, bs, other);
  }

  // ---------- one chunk of the loops: a run of bytes inside one block ----------

  lemma ChunkPhys(bs: nat, blocks: seq<nat>, off: nat, k: nat)
    requires 0 < bs && off + k < Len(|blocks|, bs) && Within(off, bs) + k < bs
    ensures PhysAt(bs, blocks, off + k) == PhysAt(bs, blocks, off) + k
  {
    Cut(off, bs);
    Join(BlockOf(off, bs), Within(off, bs) + k, bs);
  }

  // ---------- the two loops ----------

  /** One turn of either loop: where byte `off` of the fork lives, and how much of its block is left. */
  method LocateByte(extents: seq<Extent>, blockSize: nat, off: nat) returns (at: Option<nat>, room: nat)
    requires 0 < blockSize
    ensures room == blockSize - Within(off, blockSize)
    ensures at.Some? <==> off < Len(|Blocks(extents)|, blockSize)
    ensures at.Some? ==> at.value == PhysAt(blockSize, Blocks(extents), off)
  {
    var logical, inBlock := off / blockSize, off % blockSize;
    Arithmetic(off, blockSize);
    Inside(off, |Blocks(extents)|, blockSize);
    var phys := LookupBlock(extents, logical);
    room := blockSize - inBlock;
    if phys.None? {
      at := None;
    } else {
      LenMul(phys.value, blockSize);
      at := Some(phys.value * blockSize + inBlock);
    }
  }

  /** The result of a fork read: the bytes, or the raised "fork extent not found". */
  datatype ReadResult = Data(data: seq<byte>) | ExtentNotFound

  /** `read_at`: as much as the file has. */
  function ReadAt(img: seq<byte>, off: nat, n: nat): seq<byte> {
    if off >= |img| then [] else img[off..Min(off + n, |img|)]
  }

  /** `write_at`: past the end the file grows, with zeros in the gap. */
  function WriteAt(img: seq<byte>, off: nat, d: seq<byte>): (r: seq<byte>)
    ensures |r| == if d == [] || off + |d| <= |img| then |img| else off + |d|
    ensures forall i :: 0 <= i < |r| ==> r[i] == if off <= i < off + |d| then d[i - off] else if i < |img| then img[i]
        else 0
  {
    if d == [] then img
    else if off + |d| <= |img| then Patch(img, off, d)
    else if off <= |img| then img[..off] + d
    else img + Zeros(off - |img|) + d
  }

  /** The bytes `[off, off + n)` of a fork, without those the image is too short for. */
  function Existing(img: seq<byte>, bs: nat, blocks: seq<nat>, off: nat, n: nat): seq<byte>
    requires 0 < bs && (n == 0 || off + n <= Len(|blocks|, bs))
  {
    if n == 0 then []
    else
      var p := PhysAt(bs, blocks, off + n - 1);
      Existing(img, bs, blocks, off, n - 1) + if p < |img| then [img[p]] else []
  }

  /** A byte-by-byte write through the block list that grows the image where it must. */
  function Stretch(img: seq<byte>, bs: nat, blocks: seq<nat>, off: nat, data: seq<byte>): seq<byte>
    requires 0 < bs && (data == [] || off + |data| <= Len(|blocks|, bs))
    decreases |data|
  {
    if data == [] then img
    else
      var last := |data| - 1;
      WriteAt(Stretch(img, bs, blocks, off, data[..last]), PhysAt(bs, blocks, off + last), [data[last]])
  }

  lemma {:induction false} ExistingChunk(img: seq<byte>, bs: nat, blocks: seq<nat>, off: nat, n: nat, chunk: nat)
    requires 0 < bs && 0 < chunk && off + n + chunk <= Len(|blocks|, bs) && Within(off + n, bs) + chunk <= bs
    ensures Existing(img, bs, blocks, off, n + chunk)
         == Existing(img, bs, blocks, off, n) + ReadAt(img, PhysAt(bs, blocks, off + n), chunk)
    decreases chunk
  {
    hide BlockOf, Within, Len, PhysAt, ReadAt, Existing;
    var p := PhysAt(bs, blocks, off + n);
    InsideOf(bs, blocks, off + n);
    ChunkPhys(bs, blocks, off + n, chunk - 1);
    ReadOneMore(img, p, chunk);
    ExistingLast(img, bs, blocks, off, n + chunk);
    if chunk > 1 {
      ExistingChunk(img, bs, blocks, off, n, chunk - 1);
    }
  }

  lemma ExistingLast(img: seq<byte>, bs: nat, blocks: seq<nat>, off: nat, n: nat)
    requires 0 < bs && 0 < n && off + n <= Len(|blocks|, bs)
    ensures Existing(img, bs, blocks, off, n)
         == Existing(img, bs, blocks, off, n - 1) + ReadAt(img, PhysAt(bs, blocks, off + n - 1), 1)
  {
    hide BlockOf, Within, Len, PhysAt;
  }

  lemma ReadOneMore(img: seq<byte>, p: nat, n: nat)
    requires 0 < n
    ensures ReadAt(img, p, n) == ReadAt(img, p, n - 1) + ReadAt(img, p + n - 1, 1) && ReadAt(img, p, 0) == []
  {
  }

  lemma InsideOf(bs: nat, blocks: seq<nat>, i: nat)
    requires 0 < bs && i < Len(|blocks|, bs)
    ensures BlockOf(i, bs) < |blocks|
  {
    Inside(i, |blocks|, bs);
  }

  /** On an image that holds the fork's blocks nothing is missing. */
  lemma {:induction false} ExistingAll(img: seq<byte>, bs: nat, blocks: seq<nat>, off: nat, n: nat)
    requires 0 < bs && InImage(img, bs, blocks) && 0 < n && off + n <= Len(|blocks|, bs)
    ensures Existing(img, bs, blocks, off, n) == View(img, bs, blocks)[off..off + n]
  {
    hide BlockOf, Within, Len, PhysAt;
    var view := View(img, bs, blocks);
    assert view[off + n - 1] == ByteAt(img, bs, blocks, off + n - 1);
    if n > 1 {
      ExistingAll(img, bs, blocks, off, n - 1);
    }
    assert view[off..off + n] == view[off..off + n - 1] + [view[off + n - 1]];
  }

  lemma WriteOneMore(a: seq<byte>, p: nat, d: seq<byte>)
    requires d != []
    ensures WriteAt(a, p, d) == WriteAt(WriteAt(a, p, d[..|d| - 1]), p + |d| - 1, [d[|d| - 1]])
  {
  }

  lemma {:induction false} StretchChunk(img: seq<byte>, bs: nat, blocks: seq<nat>, off: nat, data: seq<byte>, pos: nat,
                                        chunk: nat)
    requires 0 < bs && 0 < chunk && pos + chunk <= |data| && off + pos + chunk <= Len(|blocks|, bs)
    requires Within(off + pos, bs) + chunk <= bs
    ensures WriteAt(Stretch(img, bs, blocks, off, data[..pos]), PhysAt(bs, blocks, off + pos), data[pos..pos + chunk])
         == Stretch(img, bs, blocks, off, data[..pos + chunk])
    decreases chunk
  {
    hide BlockOf, Within, Len, PhysAt, WriteAt;
    var a, p, d := Stretch(img, bs, blocks, off, data[..pos]), PhysAt(bs, blocks, off + pos), data[pos..pos + chunk];
    InsideOf(bs, blocks, off + pos);
    ChunkPhys(bs, blocks, off + pos, chunk - 1);
    WriteOneMore(a, p, d);
    DataParts(data, pos, chunk);
    if chunk > 1 {
      StretchChunk(img, bs, blocks, off, data, pos, chunk - 1);
    } else {
      WriteNothing(a, p);
    }
  }

  lemma DataParts(data: seq<byte>, pos: nat, chunk: nat)
    requires 0 < chunk && pos + chunk <= |data|
    ensures data[pos..pos + chunk][..chunk - 1] == data[pos..pos + chunk - 1]
    ensures data[..pos + chunk][..pos + chunk - 1] == data[..pos + chunk - 1]
    ensures data[pos..pos + chunk][chunk - 1] == data[..pos + chunk][pos + chunk - 1] == data[pos + chunk - 1]
    ensures data[pos..pos] == []
  {
  }

  lemma WriteNothing(a: seq<byte>, p: nat)
    ensures WriteAt(a, p, []) == a
  {
  }

  /** On an image that holds the fork's blocks it does not grow. */
  lemma {:induction false} StretchInside(img: seq<byte>, bs: nat, blocks: seq<nat>, off: nat, data: seq<byte>)
    requires 0 < bs && InImage(img, bs, blocks) && off + |data| <= Len(|blocks|, bs)
    ensures Stretch(img, bs, blocks, off, data) == Scatter(img, bs, blocks, off, data)
    decreases |data|
  {
    hide BlockOf, Within, Len, PhysAt, WriteAt;
    if data != [] {
      var last := |data| - 1;
      StretchInside(img, bs, blocks, off, data[..last]);
      var x := ByteAt(img, bs, blocks, off + last);
      WriteByte(Scatter(img, bs, blocks, off, data[..last]), PhysAt(bs, blocks, off + last), data[last]);
    }
  }

  lemma WriteByte(a: seq<byte>, p: nat, x: byte)
    requires p < |a|
    ensures WriteAt(a, p, [x]) == a[p := x]
  {
  }

  method ReadFork(img: seq<byte>, blockSize: nat, fork: Fork, off: nat, size: nat) returns (r: ReadResult)
    requires 0 < blockSize
    ensures r.Data? <==> size == 0 || off + size <= Len(|Blocks(fork.extents)|, blockSize)
    ensures r.Data? ==> r.data == Existing(img, blockSize, Blocks(fork.extents), off, size)
    ensures r.Data? && size != 0 && InImage(img, blockSize, Blocks(fork.extents)) ==>
              r.data == View(img, blockSize, Blocks(fork.extents))[off..off + size]
  {
    hide BlockOf, Within, Len, PhysAt, View, ReadAt, Existing, InImage;
    ghost var blocks := Blocks(fork.extents);
    ExistingNone(img, blockSize, blocks, off);
    var out: seq<byte> := [];
    var cur: nat, left: nat := off, size;
    while left > 0
      invariant cur + left == off + size && left <= size
      invariant cur == off || cur <= Len(|blocks|, blockSize)
      invariant out == Existing(img, blockSize, blocks, off, cur - off)
      decreases left
    {
      var at, room := LocateByte(fork.extents, blockSize, cur);
      if at.None? {
        return ExtentNotFound;
      }
      var chunk := Min(left, room);
      ChunkFits(blockSize, blocks, cur, chunk);
      ExistingChunk(img, blockSize, blocks, off, cur - off, chunk);
      out := out + ReadAt(img, at.value, chunk);
      cur := cur + chunk;
      left := left - chunk;
    }
    if size != 0 && InImage(img, blockSize, blocks) {
      ExistingAll(img, blockSize, blocks, off, size);
    }
    return Data(out);
  }

  lemma ExistingNone(img: seq<byte>, bs: nat, blocks: seq<nat>, off: nat)
    requires 0 < bs
    ensures Existing(img, bs, blocks, off, 0) == []
  {
  }

  lemma ChunkFits(bs: nat, blocks: seq<nat>, cur: nat, chunk: nat)
    requires 0 < bs && cur < Len(|blocks|, bs) && Within(cur, bs) + chunk <= bs
    ensures cur + chunk <= Len(|blocks|, bs)
  {
    Inside(cur, |blocks|, bs);
    Cut(cur, bs);
    LenMono(BlockOf(cur, bs) + 1, |blocks|, bs);
  }

  /** The write loop. When the fork is too short it has already written the part that fits. */
  method WriteFork(img: seq<byte>, blockSize: nat, fork: Fork, off: nat, data: seq<byte>)
    returns (img': seq<byte>, ok: bool)
    requires 0 < blockSize
    ensures ok <==> data == [] || off + |data| <= Len(|Blocks(fork.extents)|, blockSize)
    ensures ok ==> img' == Stretch(img, blockSize, Blocks(fork.extents), off, data)
    ensures !ok ==> var fits := Len(|Blocks(fork.extents)|, blockSize) - off;
                    img' == if fits <= 0 then img
                            else Stretch(img, blockSize, Blocks(fork.extents), off, data[..fits])
    ensures ok && data != [] && InImage(img, blockSize, Blocks(fork.extents)) ==>
              img' == Scatter(img, blockSize, Blocks(fork.extents), off, data)
    ensures ok && data == [] ==> img' == img
  {
    hide BlockOf, Within, Len, PhysAt, Scatter, Stretch, WriteAt, InImage;
    ghost var blocks := Blocks(fork.extents);
    StretchNone(img, blockSize, blocks, off);
    img' := img;
    var cur: nat, pos: nat, left: nat := off, 0, |data|;
    while left > 0
      invariant cur == off + pos && pos + left == |data|
      invariant pos > 0 ==> cur <= Len(|blocks|, blockSize)
      invariant img' == Stretch(img, blockSize, blocks, off, data[..pos])
      decreases left
    {
      var at, room := LocateByte(fork.extents, blockSize, cur);
      if at.None? {
        return img', false;
      }
      var chunk := Min(left, room);
      ChunkFits(blockSize, blocks, cur, chunk);
      StretchChunk(img, blockSize, blocks, off, data, pos, chunk);
      img' := WriteAt(img', at.value, data[pos..pos + chunk]);
      cur := cur + chunk;
      pos := pos + chunk;
      left := left - chunk;
    }
    assert data[..|data|] == data;
    if data != [] && InImage(img, blockSize, blocks) {
      StretchInside(img, blockSize, blocks, off, data);
    }
    return img', true;
  }

  lemma StretchNone(img: seq<byte>, bs: nat, blocks: seq<nat>, off: nat)
    requires 0 < bs
    ensures Stretch(img, bs, blocks, off, []) == img
  {
  }

  /** The image bytes a write of `n` bytes at `off` goes to. */
  ghost predicate Hits(bs: nat, blocks: seq<nat>, off: nat, n: nat, p: nat)
    requires 0 < bs && off + n <= Len(|blocks|, bs)
  {
    exists i :: off <= i < off + n && PhysAt(bs, blocks, i) == p
  }

  lemma {:induction false} ScatterMisses(img: seq<byte>, bs: nat, blocks: seq<nat>, off: nat, data: seq<byte>, p: nat)
    requires 0 < bs && InImage(img, bs, blocks) && off + |data| <= Len(|blocks|, bs)
    requires p < |img| && !Hits(bs, blocks, off, |data|, p)
    ensures Scatter(img, bs, blocks, off, data)[p] == img[p]
    decreases |data|
  {
    if data != [] {
      ScatterMisses(img, bs, blocks, off, data[..|data| - 1], p);
      assert PhysAt(bs, blocks, off + |data| - 1) != p;
    }
  }

  /** What was written is what is read back, and no other byte of the image moves. */
  lemma WriteThenRead(img: seq<byte>, bs: nat, blocks: seq<nat>, off: nat, data: seq<byte>)
    requires 0 < bs && InImage(img, bs, blocks) && off + |data| <= Len(|blocks|, bs) && NoDup(blocks)
    ensures View(Scatter(img, bs, blocks, off, data), bs, blocks)[off..off + |data|] == data
    ensures forall p :: 0 <= p < |img| && !Hits(bs, blocks, off, |data|, p)
                    ==> Scatter(img, bs, blocks, off, data)[p] == img[p]
  {
    ScatterView(img, bs, blocks, off, data);
    forall p | 0 <= p < |img| && !Hits(bs, blocks, off, |data|, p)
      ensures Scatter(img, bs, blocks, off, data)[p] == img[p]
    {
      ScatterMisses(img, bs, blocks, off, data, p);
    }
  }
}
