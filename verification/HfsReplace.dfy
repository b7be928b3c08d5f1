/** What replacing a file's contents keeps: lemmas about the writes, independent of the code. */
module HfsReplace {
  import opened Bytes
  import opened Blocking
  import opened HfsExtents
  import opened HfsBitmap
  import opened HfsForkRecord
  import opened HfsCatalog
  import opened HfsVolume

  // ---------- rewriting one file's fork record ----------

  /** Position of a file's fork record in the catalog. */
  function RecordAt(v: Volume, f: FileLoc): nat {
    Len(f.node, v.nodeSize) + f.off
  }

  lemma RecordInCatalog(v: Volume, cat: seq<byte>, f: FileLoc)
    requires WindowClear(cat, v.nodeSize, f.node, f.off, FORK_SIZE)
    ensures RecordAt(v, f) + FORK_SIZE <= |cat|
  {
  }

  lemma RecordsApart(v: Volume, cat: seq<byte>, files: seq<FileLoc>, k: nat, j: nat)
    requires Locs(v, cat, files) && k < |files| && j < |files| && j != k
    ensures Disjoint(RecordAt(v, files[k]), RecordAt(v, files[k]) + FORK_SIZE,
                     RecordAt(v, files[j]), RecordAt(v, files[j]) + FORK_SIZE)
  {
    var a, b := files[k], files[j];
    assert a in files && b in files;
    if a.node < b.node {
      LenMono(a.node + 1, b.node, v.nodeSize);
    } else if b.node < a.node {
      LenMono(b.node + 1, a.node, v.nodeSize);
    }
  }

  lemma LocsPatched(v: Volume, cat: seq<byte>, files: seq<FileLoc>, k: nat, w: seq<byte>)
    requires Locs(v, cat, files) && k < |files| && |w| == FORK_SIZE
    ensures RecordAt(v, files[k]) + |w| <= |cat|
    ensures Locs(v, Patch(cat, RecordAt(v, files[k]), w), files)
  {
    hide Clear, Len, Patch;
    var f := files[k];
    assert f in files;
    RecordInCatalog(v, cat, f);
    var cat' := Patch(cat, RecordAt(v, f), w);
    forall g | g in files ensures WindowClear(cat', v.nodeSize, g.node, g.off, FORK_SIZE) {
      NodeOfPatch(cat, v.nodeSize, f.node, f.off, w, g.node);
      if g.node == f.node {
        ClearOutside(Node(cat, v.nodeSize, f.node), f.off, w, g.off, g.off + FORK_SIZE);
      }
    }
  }

  lemma OtherForkPatched(v: Volume, cat: seq<byte>, files: seq<FileLoc>, k: nat, w: seq<byte>, j: nat)
    requires Locs(v, cat, files) && k < |files| && |w| == FORK_SIZE && j < |files| && j != k
    ensures RecordAt(v, files[k]) + |w| <= |cat| && files[j] in files
    ensures var cat' := Patch(cat, RecordAt(v, files[k]), w);
            && WindowClear(cat', v.nodeSize, files[j].node, files[j].off, FORK_SIZE)
            && FileFork(v, cat', files[j]) == FileFork(v, cat, files[j])
  {
    hide Clear, Len, Patch, Be64, ForkAt;
    LocsPatched(v, cat, files, k, w);
    RecordsApart(v, cat, files, k, j);
    var cat' := Patch(cat, RecordAt(v, files[k]), w);
    assert files[j] in files;
    RecordInCatalog(v, cat, files[j]);
    SliceOfPatch(cat, RecordAt(v, files[k]), w, RecordAt(v, files[j]), FORK_SIZE);
    SameFork(cat', RecordAt(v, files[j]), cat, RecordAt(v, files[j]));
  }

  lemma HitsPatched(v: Volume, cat: seq<byte>, files: seq<FileLoc>, k: nat, w: seq<byte>)
    requires Locs(v, cat, files) && k < |files| && |w| == FORK_SIZE && 0 < v.nodeSize
    requires HitsListed(v, cat, files)
    ensures RecordAt(v, files[k]) + |w| <= |cat|
    ensures HitsListed(v, Patch(cat, RecordAt(v, files[k]), w), files)
  {
    hide ScanFrom, Clear, Len, Patch;
    var f := files[k];
    assert f in files;
    RecordInCatalog(v, cat, f);
    var cat' := Patch(cat, RecordAt(v, f), w);
    forall p: nat, t: seq<byte> ensures Listed(v, cat', files, p, t) {
      assert Listed(v, cat, files, p, t);
      ScanOutside(cat, v.nodeSize, f.node, f.off, w, v.firstLeaf, v.lastLeaf, p, t);
    }
  }

  // ---------- moving one file's blocks ----------

  lemma OwnershipMoved(v: Volume, cat: seq<byte>, cat': seq<byte>, files: seq<FileLoc>, k: nat,
                       bitmap: seq<byte>, bitmap': seq<byte>, nb: seq<nat>)
    requires 0 < v.blockSize && Locs(v, cat, files) && Locs(v, cat', files) && k < |files|
    requires |bitmap'| == |bitmap| && v.totalBlocks <= 8 * |bitmap|
    requires Ownership(v, cat, files, bitmap)
    requires forall i: nat :: i < 3 + |files| ==>
               Owned(v, cat', files, i) == if i == 3 + k then nb else Owned(v, cat, files, i)
    requires NoDup(nb) && forall b :: b in nb ==> b < v.totalBlocks && !IsUsed(bitmap, b)
    requires forall b: nat :: b < v.totalBlocks ==>
               IsUsed(bitmap', b) == if b in Owned(v, cat, files, 3 + k) then false
                                     else if b in nb then true else IsUsed(bitmap, b)
    ensures Ownership(v, cat', files, bitmap')
  {
    hide Owned, Locs, NoDup, IsUsed;
    forall i: nat | i < 3 + |files| ensures OwnerOk(v, cat', files, bitmap', i) {
      assert OwnerOk(v, cat, files, bitmap, i) && OwnerOk(v, cat, files, bitmap, 3 + k);
      assert OwnersApart(v, cat, files, i, 3 + k);
    }
    forall i: nat, j: nat | i < 3 + |files| && j < 3 + |files| ensures OwnersApart(v, cat', files, i, j) {
      assert OwnerOk(v, cat, files, bitmap, i) && OwnerOk(v, cat, files, bitmap, j);
      assert OwnersApart(v, cat, files, i, j);
    }
  }

  lemma OwnershipKept(v: Volume, cat: seq<byte>, cat': seq<byte>, files: seq<FileLoc>, bitmap: seq<byte>)
    requires 0 < v.blockSize && Locs(v, cat, files) && Locs(v, cat', files)
    requires v.totalBlocks <= 8 * |bitmap|
    requires Ownership(v, cat, files, bitmap)
    requires forall i: nat :: i < 3 + |files| ==> Owned(v, cat', files, i) == Owned(v, cat, files, i)
    ensures Ownership(v, cat', files, bitmap)
  {
    hide Owned, Locs, NoDup, IsUsed;
    forall i: nat | i < 3 + |files| ensures OwnerOk(v, cat', files, bitmap, i) {
      assert OwnerOk(v, cat, files, bitmap, i);
    }
    forall i: nat, j: nat | i < 3 + |files| && j < 3 + |files| ensures OwnersApart(v, cat', files, i, j) {
      assert OwnersApart(v, cat, files, i, j);
    }
  }

  /** Rewriting file `k`'s record moves file `k` and nothing else. */
  lemma OwnedPatched(v: Volume, cat: seq<byte>, files: seq<FileLoc>, k: nat, w: seq<byte>, nb: seq<nat>)
    requires 0 < v.blockSize && Locs(v, cat, files) && k < |files| && |w| == FORK_SIZE
    requires RecordAt(v, files[k]) + |w| <= |cat|
    requires Blocks(ForkAt(Patch(cat, RecordAt(v, files[k]), w), RecordAt(v, files[k])).extents) == nb
    ensures var cat' := Patch(cat, RecordAt(v, files[k]), w);
            && Locs(v, cat', files)
            && forall i: nat :: i < 3 + |files| ==>
                 Owned(v, cat', files, i) == if i == 3 + k then nb else Owned(v, cat, files, i)
  {
    hide Locs, Clear, Len, Patch, ForkAt;
    LocsPatched(v, cat, files, k, w);
    var cat' := Patch(cat, RecordAt(v, files[k]), w);
    forall i: nat | i < 3 + |files|
      ensures Owned(v, cat', files, i) == if i == 3 + k then nb else Owned(v, cat, files, i)
    {
      if i >= 3 && i != 3 + k {
        OtherForkPatched(v, cat, files, k, w, i - 3);
      }
    }
  }

  // ---------- the three writes ----------

  /** What a write makes of the bytes a file's extents held: the payload, zeros up to one block behind it or as far as
      the extents reach, and behind those the old bytes. */
  function Overlaid(was: seq<byte>, payload: seq<byte>, bs: nat): (r: seq<byte>)
    requires |payload| <= |was|
    ensures |r| == |was| && payload <= r
  {
    var z := Min(bs, |was| - |payload|);
    payload + Zeros(z) + was[|payload| + z..]
  }

  /** When less than a block is left behind the payload, nothing of the old bytes stays. */
  lemma OverlaidWhole(was: seq<byte>, payload: seq<byte>, bs: nat)
    requires |payload| <= |was| < |payload| + bs
    ensures Overlaid(was, payload, bs) == payload + Zeros(|was| - |payload|)
  {
  }

  /** The payload, and zeros after it: up to one block, or as much as the extents have left. */
  ghost function DataWritten(v: Volume, img: seq<byte>, nb: seq<nat>, payload: seq<byte>): (r: seq<byte>)
    requires Geometry(v, img) && InVolume(v, nb) && |payload| <= Len(|nb|, v.blockSize)
    ensures |r| == |img|
  {
    InVolumeInImage(v, img, nb);
    var a := Scatter(img, v.blockSize, nb, 0, payload);
    Scatter(a, v.blockSize, nb, |payload|, Zeros(Min(v.blockSize, Len(|nb|, v.blockSize) - |payload|)))
  }

  /** The catalog node with one fork record rewritten. */
  ghost function RecordWritten(v: Volume, img: seq<byte>, f: FileLoc, w: seq<byte>): (r: seq<byte>)
    requires Geometry(v, img) && Forks(v) && |w| == FORK_SIZE
    requires WindowClear(CatView(v, img), v.nodeSize, f.node, f.off, FORK_SIZE)
    ensures |r| == |img|
  {
    InVolumeInImage(v, img, CatBlocks(v));
    Scatter(img, v.blockSize, CatBlocks(v), Len(f.node, v.nodeSize),
            Patch(Node(CatView(v, img), v.nodeSize, f.node), f.off, w))
  }

  /** The free count in the header, then the bitmap. */
  ghost function BitmapWritten(v: Volume, img: seq<byte>, free: nat, bitmap: seq<byte>): (r: seq<byte>)
    requires Geometry(v, img) && Forks(v) && |bitmap| == v.alloc.size && free < TWO32
    ensures |r| == |img|
  {
    var a := Patch(img, HDR_OFF + FREE_BLOCKS_OFF, EncBe32(free));
    InVolumeInImage(v, a, AllocBlocks(v));
    Scatter(a, v.blockSize, AllocBlocks(v), 0, bitmap)
  }

  lemma OutsideTwice(bs: nat, a: seq<byte>, b: seq<byte>, c: seq<byte>, x: seq<nat>, y: seq<nat>)
    requires 0 < bs && SameOutside(bs, a, b, x) && SameOutside(bs, b, c, y)
    ensures SameOutside(bs, a, c, x + y)
  {
    hide BlockOf;
    forall p | 0 <= p < |a| && BlockOf(p, bs) !in x + y ensures c[p] == a[p] {
      assert BlockOf(p, bs) !in x && BlockOf(p, bs) !in y;
    }
  }

  lemma DataEffect(v: Volume, img: seq<byte>, nb: seq<nat>, payload: seq<byte>)
    requires Geometry(v, img) && InVolume(v, nb) && NoDup(nb) && |payload| <= Len(|nb|, v.blockSize)
    ensures SameOutside(v.blockSize, img, DataWritten(v, img, nb, payload), nb)
    ensures Geometry(v, DataWritten(v, img, nb, payload))
    ensures ViewOf(v, DataWritten(v, img, nb, payload), nb) == Overlaid(ViewOf(v, img, nb), payload, v.blockSize)
  {
    hide Scatter, View, Len, BlockOf, NoDup, Zeros, SameOutside, DataWritten, Overlaid;
    InVolumeInImage(v, img, nb);
    DataOutside(v, img, nb, payload);
    DataView(v, img, nb, payload);
  }

  lemma DataOutside(v: Volume, img: seq<byte>, nb: seq<nat>, payload: seq<byte>)
    requires Geometry(v, img) && InVolume(v, nb) && |payload| <= Len(|nb|, v.blockSize)
    ensures SameOutside(v.blockSize, img, DataWritten(v, img, nb, payload), nb)
  {
    hide Scatter, Len, BlockOf, Zeros, SameOutside;
    var bs := v.blockSize;
    var z := Zeros(Min(bs, Len(|nb|, bs) - |payload|));
    ScatterSameOutside(v, img, nb, 0, payload);
    var a := Scatter(img, bs, nb, 0, payload);
    ScatterSameOutside(v, a, nb, |payload|, z);
    OutsideTwice(bs, img, a, DataWritten(v, img, nb, payload), nb, nb);
    SameOutsideDouble(bs, img, DataWritten(v, img, nb, payload), nb);
  }

  lemma DataView(v: Volume, img: seq<byte>, nb: seq<nat>, payload: seq<byte>)
    requires Geometry(v, img) && InVolume(v, nb) && NoDup(nb) && |payload| <= Len(|nb|, v.blockSize)
    ensures InImage(img, v.blockSize, nb)
    ensures View(DataWritten(v, img, nb, payload), v.blockSize, nb)
         == Overlaid(View(img, v.blockSize, nb), payload, v.blockSize)
  {
    hide Scatter, View, Len, NoDup, Zeros, Overlaid, Patch, InImage, InVolume;
    var bs := v.blockSize;
    InVolumeInImage(v, img, nb);
    assert |View(img, bs, nb)| == Len(|nb|, bs);
    ViewTwice(img, bs, nb, payload, Zeros(Min(bs, Len(|nb|, bs) - |payload|)));
    PatchTwice(View(img, bs, nb), payload, bs);
  }

  /** Two writes one behind the other, seen through the extents. */
  lemma ViewTwice(img: seq<byte>, bs: nat, nb: seq<nat>, payload: seq<byte>, z: seq<byte>)
    requires 0 < bs && InImage(img, bs, nb) && NoDup(nb) && |payload| + |z| <= Len(|nb|, bs)
    ensures var a := Scatter(img, bs, nb, 0, payload);
            && InImage(a, bs, nb)
            && View(Scatter(a, bs, nb, |payload|, z), bs, nb)
                == Patch(Patch(View(img, bs, nb), 0, payload), |payload|, z)
  {
    hide Scatter, View, Len, NoDup, Patch;
    var a := Scatter(img, bs, nb, 0, payload);
    assert |a| == |img|;
    ScatterView(img, bs, nb, 0, payload);
    ScatterView(a, bs, nb, |payload|, z);
  }

  lemma SameOutsideDouble(bs: nat, a: seq<byte>, b: seq<byte>, x: seq<nat>)
    requires 0 < bs && SameOutside(bs, a, b, x + x)
    ensures SameOutside(bs, a, b, x)
  {
    hide BlockOf;
  }

  lemma PatchTwice(b: seq<byte>, p: seq<byte>, bs: nat)
    requires |p| <= |b|
    ensures Patch(Patch(b, 0, p), |p|, Zeros(Min(bs, |b| - |p|))) == Overlaid(b, p, bs)
  {
    var z := Zeros(Min(bs, |b| - |p|));
    var x, y := Patch(Patch(b, 0, p), |p|, z), Overlaid(b, p, bs);
    assert |p + z| == |p| + |z|;
    forall i | 0 <= i < |b| ensures x[i] == y[i] {
    }
  }

  lemma PatchNode(cat: seq<byte>, ns: nat, n: nat, off: nat, w: seq<byte>)
    requires Len(n + 1, ns) <= |cat| && off + |w| <= ns
    ensures Len(n, ns) + ns <= |cat|
    ensures Patch(cat, Len(n, ns), Patch(Node(cat, ns, n), off, w)) == Patch(cat, Len(n, ns) + off, w)
  {
    assert Len(n + 1, ns) == Len(n, ns) + ns;
    PatchPatch(cat, Len(n, ns), ns, off, w);
  }

  lemma PatchPatch(b: seq<byte>, o: nat, n: nat, off: nat, w: seq<byte>)
    requires o + n <= |b| && off + |w| <= n
    ensures Patch(b, o, Patch(b[o..o + n], off, w)) == Patch(b, o + off, w)
  {
    var x, y := Patch(b, o, Patch(b[o..o + n], off, w)), Patch(b, o + off, w);
    forall i | 0 <= i < |b| ensures x[i] == y[i] {
      if o <= i < o + n {
        assert b[o..o + n][i - o] == b[i];
      }
    }
  }

  lemma RecordEffect(v: Volume, img: seq<byte>, f: FileLoc, w: seq<byte>)
    requires Geometry(v, img) && Forks(v) && NoDup(CatBlocks(v)) && |w| == FORK_SIZE
    requires WindowClear(CatView(v, img), v.nodeSize, f.node, f.off, FORK_SIZE)
    ensures var img' := RecordWritten(v, img, f, w);
            && SameOutside(v.blockSize, img, img', CatBlocks(v)) && Geometry(v, img')
            && RecordAt(v, f) + |w| <= |CatView(v, img)|
            && CatView(v, img') == Patch(CatView(v, img), RecordAt(v, f), w)
  {
    hide Scatter, View, Patch, NoDup, Clear, Len, Node, BlockOf, Blocks;
    var cat := CatView(v, img);
    var node := Patch(Node(cat, v.nodeSize, f.node), f.off, w);
    PatchNode(cat, v.nodeSize, f.node, f.off, w);
    InVolumeInImage(v, img, CatBlocks(v));
    ScatterSameOutside(v, img, CatBlocks(v), Len(f.node, v.nodeSize), node);
    ScatterView(img, v.blockSize, CatBlocks(v), Len(f.node, v.nodeSize), node);
  }

  lemma BitmapEffect(v: Volume, img: seq<byte>, free: nat, bitmap: seq<byte>)
    requires Geometry(v, img) && Forks(v) && |bitmap| == v.alloc.size && free < TWO32
    requires NoDup(AllocBlocks(v)) && HdrBlock(v) !in AllocBlocks(v)
    ensures var img' := BitmapWritten(v, img, free, bitmap);
            && SameOutside(v.blockSize, img, img', [HdrBlock(v)] + AllocBlocks(v)) && Geometry(v, img')
            && Header(img') == Patch(Header(img), FREE_BLOCKS_OFF, EncBe32(free))
            && Bitmap(v, img') == bitmap
  {
    hide Scatter, View, Patch, NoDup, BlockOf, EncBe32, Len, Header;
    var e := EncBe32(free);
    var a := Patch(img, HDR_OFF + FREE_BLOCKS_OFF, e);
    HeaderPatch(v, img, FREE_BLOCKS_OFF, e);
    ScatterSameOutside(v, a, AllocBlocks(v), 0, bitmap);
    var img' := BitmapWritten(v, img, free, bitmap);
    OutsideTwice(v.blockSize, img, a, img', [HdrBlock(v)], AllocBlocks(v));
    OutsideHeader(v, a, img', AllocBlocks(v));
    ScatterView(a, v.blockSize, AllocBlocks(v), 0, bitmap);
  }

  // ---------- the whole replacement ----------

  /** What a successful replacement promises: the volume stays well formed, file `k` holds the
      payload, every other file keeps its extents and every byte, every path still leads to
      the same record, and no other byte of the image changes. */
  ghost predicate Replaced(v: Volume, free: nat, img: seq<byte>, free': nat, img': seq<byte>, files: seq<FileLoc>,
                           k: nat, payload: seq<byte>)
    requires WellFormed(v, free, img, files) && k < |files|
  {
    && WellFormed(v, free', img', files) && |img'| == |img|
    && FilesAfter(v, free, img, free', img', files, k, payload)
    && SamePaths(v, CatView(v, img), CatView(v, img'))
    && OnlyRecordMoved(v, CatView(v, img), CatView(v, img'), files[k])
    && SpaceAfter(v, free, img, free', img', files, k, |payload|)
  }

  ghost predicate FilesAfter(v: Volume, free: nat, img: seq<byte>, free': nat, img': seq<byte>, files: seq<FileLoc>,
                             k: nat, payload: seq<byte>)
    requires WellFormed(v, free, img, files) && WellFormed(v, free', img', files) && k < |files|
  {
    && FileFork(v, CatView(v, img'), files[k]).size == |payload|
    && BytesAfter(v.blockSize, FileBytes(v, free, img, files, k), FileBytes(v, free', img', files, k), payload)
    && (forall j :: 0 <= j < |files| && j != k ==>
          && FileFork(v, CatView(v, img'), files[j]) == FileFork(v, CatView(v, img), files[j])
          && FileBytes(v, free', img', files, j) == FileBytes(v, free, img, files, j))
  }

  /** All the bytes the file's extents hold: in place the old ones overlaid, after a move the payload and zeros. */
  predicate BytesAfter(bs: nat, was: seq<byte>, now: seq<byte>, payload: seq<byte>)
    requires 0 < bs
  {
    if |payload| <= |was| then now == Overlaid(was, payload, bs)
    else
      && |payload| <= |now| == Len(CeilDiv(|payload|, bs), bs)
      && now == payload + Zeros(|now| - |payload|)
  }

  /** The record, the header, the bitmap and the free count: in place nothing but the record changes; a file that must
      grow goes to the first free run and gives its old blocks back. */
  ghost predicate SpaceAfter(v: Volume, free: nat, img: seq<byte>, free': nat, img': seq<byte>, files: seq<FileLoc>,
                             k: nat, size: nat)
    requires WellFormed(v, free, img, files) && WellFormed(v, free', img', files) && k < |files| && files[k] in files
  {
    if size <= |FileBytes(v, free, img, files, k)| then
      StaysIn(v, free, img, free', img', files[k], size)
    else
      exists s: nat :: MovesTo(v, free, img, free', img', files[k], size, s)
  }

  ghost predicate StaysIn(v: Volume, free: nat, img: seq<byte>, free': nat, img': seq<byte>, f: FileLoc, size: nat)
    requires Geometry(v, img) && Geometry(v, img') && Forks(v)
    requires WindowClear(CatView(v, img), v.nodeSize, f.node, f.off, FORK_SIZE)
  {
    var cat := CatView(v, img);
    && RecordBytes(v, cat, CatView(v, img'), f, size, FileFork(v, cat, f).extents)
    && free' == free && Header(img') == Header(img) && Bitmap(v, img') == Bitmap(v, img)
    && SameOutside(v.blockSize, img, img', FileBlocks(v, cat, f) + CatBlocks(v))
  }

  ghost predicate MovesTo(v: Volume, free: nat, img: seq<byte>, free': nat, img': seq<byte>, f: FileLoc, size: nat,
                          s: nat)
    requires Geometry(v, img) && Geometry(v, img') && Forks(v)
    requires WindowClear(CatView(v, img), v.nodeSize, f.node, f.off, FORK_SIZE)
  {
    var cat, n := CatView(v, img), CeilDiv(size, v.blockSize);
    && FirstRun(v, Bitmap(v, img), s, n)
    && RecordBytes(v, cat, CatView(v, img'), f, size, [Extent(s, n)])
    && free' == free + |FileBlocks(v, cat, f)| - n && free' < TWO32
    && Header(img') == Patch(Header(img), FREE_BLOCKS_OFF, EncBe32(free'))
    && Remarked(Bitmap(v, img), Bitmap(v, img'), Run(s, n), FileBlocks(v, cat, f))
    && SameOutside(v.blockSize, img, img', [HdrBlock(v)] + AllocBlocks(v) + (Run(s, n) + CatBlocks(v)))
  }

  /** The catalog with the record of `f` rewritten: size, the clump field as it was, the least block count, extents. */
  ghost predicate RecordBytes(v: Volume, cat: seq<byte>, cat': seq<byte>, f: FileLoc, size: nat, ext: seq<Extent>)
    requires 0 < v.blockSize
  {
    && RecordAt(v, f) + FORK_SIZE <= |cat| && size < TWO64 && CeilDiv(size, v.blockSize) < TWO32
    && |ext| <= 8 && Encodable(ext)
    && cat' == Patch(cat, RecordAt(v, f), RewrittenFork(v, cat, f, size, ext))
  }

  ghost function RewrittenFork(v: Volume, cat: seq<byte>, f: FileLoc, size: nat, ext: seq<Extent>): (w: seq<byte>)
    requires 0 < v.blockSize && RecordAt(v, f) + FORK_SIZE <= |cat| && size < TWO64
    requires CeilDiv(size, v.blockSize) < TWO32 && |ext| <= 8 && Encodable(ext)
    ensures |w| == FORK_SIZE
  {
    ForkRecord(cat[RecordAt(v, f) + 8..RecordAt(v, f) + 12], size, CeilDiv(size, v.blockSize), ext)
  }

  ghost predicate SamePaths(v: Volume, cat: seq<byte>, cat': seq<byte>)
    requires 0 < v.nodeSize
  {
    forall path :: FindFileSpec(cat', v.nodeSize, v.firstLeaf, v.lastLeaf, path)
                == FindFileSpec(cat, v.nodeSize, v.firstLeaf, v.lastLeaf, path)
  }

  /** The catalogs differ at most in one fork record, and that record is not in the header node. */
  ghost predicate OnlyRecordMoved(v: Volume, cat: seq<byte>, cat': seq<byte>, f: FileLoc) {
    && 0 < f.node && RecordAt(v, f) + FORK_SIZE <= |cat|
    && exists w: seq<byte> :: |w| == FORK_SIZE && cat' == Patch(cat, RecordAt(v, f), w)
  }

  lemma OwnerFacts(v: Volume, free: nat, img: seq<byte>, files: seq<FileLoc>, i: nat)
    requires WellFormed(v, free, img, files) && i < 3 + |files|
    ensures NoDup(Owned(v, CatView(v, img), files, i)) && InVolume(v, Owned(v, CatView(v, img), files, i))
    ensures forall j: nat :: j < 3 + |files| && j != i ==>
              Apart(Owned(v, CatView(v, img), files, i), Owned(v, CatView(v, img), files, j))
  {
    hide Owned, NoDup, Locs, HitsListed, HeaderOk;
    var cat := CatView(v, img);
    assert OwnerOk(v, cat, files, Bitmap(v, img), i);
    forall j: nat | j < 3 + |files| && j != i ensures Apart(Owned(v, cat, files, i), Owned(v, cat, files, j)) {
      assert OwnersApart(v, cat, files, i, j);
    }
  }

  lemma ApartSym(a: seq<nat>, b: seq<nat>)
    requires Apart(a, b)
    ensures Apart(b, a)
  {
  }

  /** The last two writes, seen from every owner. `base` is the image they start from. */
  ghost function Finished(v: Volume, base: seq<byte>, f: FileLoc, nb: seq<nat>, payload: seq<byte>,
                          w: seq<byte>): (r: seq<byte>)
    requires Geometry(v, base) && Forks(v) && |w| == FORK_SIZE
    requires InVolume(v, nb) && NoDup(nb) && |payload| <= Len(|nb|, v.blockSize) && Apart(CatBlocks(v), nb)
    requires WindowClear(CatView(v, base), v.nodeSize, f.node, f.off, FORK_SIZE)
    ensures |r| == |base|
  {
    var a := DataWritten(v, base, nb, payload);
    DataEffect(v, base, nb, payload);
    OutsideView(v, base, a, nb, CatBlocks(v));
    RecordWritten(v, a, f, w)
  }

  lemma FinishedEffect(v: Volume, base: seq<byte>, f: FileLoc, nb: seq<nat>, payload: seq<byte>, w: seq<byte>)
    requires Geometry(v, base) && Forks(v) && NoDup(CatBlocks(v)) && |w| == FORK_SIZE
    requires InVolume(v, nb) && NoDup(nb) && |payload| <= Len(|nb|, v.blockSize) && Apart(CatBlocks(v), nb)
    requires WindowClear(CatView(v, base), v.nodeSize, f.node, f.off, FORK_SIZE)
    ensures var img' := Finished(v, base, f, nb, payload, w);
            && Geometry(v, img') && SameOutside(v.blockSize, base, img', nb + CatBlocks(v))
            && RecordAt(v, f) + |w| <= |CatView(v, base)|
            && CatView(v, img') == Patch(CatView(v, base), RecordAt(v, f), w)
            && ViewOf(v, img', nb) == Overlaid(ViewOf(v, base, nb), payload, v.blockSize)
  {
    hide DataWritten, RecordWritten, View, Len, BlockOf, NoDup, Patch, Clear, Overlaid;
    var a := DataWritten(v, base, nb, payload);
    var img' := Finished(v, base, f, nb, payload, w);
    DataEffect(v, base, nb, payload);
    OutsideView(v, base, a, nb, CatBlocks(v));
    RecordEffect(v, a, f, w);
    OutsideTwice(v.blockSize, base, a, img', nb, CatBlocks(v));
    ApartSym(CatBlocks(v), nb);
    OutsideView(v, a, img', CatBlocks(v), nb);
  }

  lemma ApartConcat(a: seq<nat>, x: seq<nat>, y: seq<nat>)
    requires Apart(a, x) && Apart(a, y)
    ensures Apart(a, x + y)
  {
  }

  /** Owners other than the catalog and file `k` see nothing of the last two writes. */
  lemma FinishedOther(v: Volume, base: seq<byte>, f: FileLoc, nb: seq<nat>, payload: seq<byte>, w: seq<byte>,
                      other: seq<nat>)
    requires Geometry(v, base) && Forks(v) && NoDup(CatBlocks(v)) && |w| == FORK_SIZE
    requires InVolume(v, nb) && NoDup(nb) && |payload| <= Len(|nb|, v.blockSize) && Apart(CatBlocks(v), nb)
    requires WindowClear(CatView(v, base), v.nodeSize, f.node, f.off, FORK_SIZE)
    requires InVolume(v, other) && Apart(other, nb) && Apart(other, CatBlocks(v))
    ensures var img' := Finished(v, base, f, nb, payload, w);
            Geometry(v, img') && ViewOf(v, img', other) == ViewOf(v, base, other)
  {
    hide Finished, View, Len, BlockOf, NoDup, Patch, Clear;
    FinishedEffect(v, base, f, nb, payload, w);
    ApartConcat(other, nb, CatBlocks(v));
    OutsideView(v, base, Finished(v, base, f, nb, payload, w), nb + CatBlocks(v), other);
  }

  lemma FinishedHeader(v: Volume, base: seq<byte>, f: FileLoc, nb: seq<nat>, payload: seq<byte>, w: seq<byte>)
    requires Geometry(v, base) && Forks(v) && NoDup(CatBlocks(v)) && |w| == FORK_SIZE
    requires InVolume(v, nb) && NoDup(nb) && |payload| <= Len(|nb|, v.blockSize) && Apart(CatBlocks(v), nb)
    requires WindowClear(CatView(v, base), v.nodeSize, f.node, f.off, FORK_SIZE)
    requires HdrBlock(v) !in nb && HdrBlock(v) !in CatBlocks(v)
    ensures Header(Finished(v, base, f, nb, payload, w)) == Header(base)
  {
    hide Finished, View, Len, BlockOf, NoDup, Patch, Clear, Header;
    FinishedEffect(v, base, f, nb, payload, w);
    OutsideHeader(v, base, Finished(v, base, f, nb, payload, w), nb + CatBlocks(v));
  }

  // ---------- in place ----------

  lemma SystemOwners(v: Volume, free: nat, img: seq<byte>, files: seq<FileLoc>)
    requires WellFormed(v, free, img, files)
    ensures NoDup(CatBlocks(v)) && NoDup(AllocBlocks(v))
    ensures HdrBlock(v) !in AllocBlocks(v) && HdrBlock(v) !in CatBlocks(v)
    ensures Apart(AllocBlocks(v), CatBlocks(v)) && Apart(CatBlocks(v), AllocBlocks(v))
  {
    hide NoDup, Locs, HitsListed, HeaderOk, Ownership, FreeSet;
    var cat := CatView(v, img);
    OwnerFacts(v, free, img, files, 0);
    OwnerFacts(v, free, img, files, 1);
    OwnerFacts(v, free, img, files, 2);
    assert Owned(v, cat, files, 0) == [HdrBlock(v)] && Owned(v, cat, files, 1) == AllocBlocks(v);
    assert Owned(v, cat, files, 2) == CatBlocks(v);
    assert HdrBlock(v) in Owned(v, cat, files, 0);
    assert Apart(Owned(v, cat, files, 0), Owned(v, cat, files, 1));
    assert Apart(Owned(v, cat, files, 0), Owned(v, cat, files, 2));
  }

  /** The record written for file `k` unpacks to the payload's length and the blocks `nb`. */
  ghost predicate RecordFor(v: Volume, cat: seq<byte>, f: FileLoc, w: seq<byte>, size: nat, nb: seq<nat>)
    requires RecordAt(v, f) + FORK_SIZE <= |cat|
  {
    && |w| == FORK_SIZE
    && var g := ForkAt(Patch(cat, RecordAt(v, f), w), RecordAt(v, f));
       g.size == size && Blocks(g.extents) == nb
  }

  lemma FileApart(v: Volume, free: nat, img: seq<byte>, files: seq<FileLoc>, k: nat)
    requires WellFormed(v, free, img, files) && k < |files|
    ensures var cat := CatView(v, img);
            && files[k] in files
            && var nb := FileBlocks(v, cat, files[k]);
            && NoDup(nb) && InVolume(v, nb) && HdrBlock(v) !in nb
            && Apart(CatBlocks(v), nb) && Apart(AllocBlocks(v), nb)
            && (forall j :: 0 <= j < |files| && j != k ==> files[j] in files && Apart(FileBlocks(v, cat, files[j]), nb))
  {
    hide NoDup, HitsListed, HeaderOk, Ownership, FreeSet, FileBlocks, Clear;
    var cat := CatView(v, img);
    assert files[k] in files;
    var nb := Owned(v, cat, files, 3 + k);
    OwnerFacts(v, free, img, files, 3 + k);
    forall i: nat | i < 3 + |files| && i != 3 + k ensures Apart(Owned(v, cat, files, i), nb) {
      assert Apart(nb, Owned(v, cat, files, i));
    }
    assert Owned(v, cat, files, 0) == [HdrBlock(v)];
    assert HdrBlock(v) in Owned(v, cat, files, 0);
    assert Owned(v, cat, files, 1) == AllocBlocks(v) && Owned(v, cat, files, 2) == CatBlocks(v);
    forall j | 0 <= j < |files| && j != k ensures files[j] in files && Apart(FileBlocks(v, cat, files[j]), nb) {
      assert Apart(Owned(v, cat, files, 3 + j), nb);
    }
  }

  lemma PathsKept(v: Volume, cat: seq<byte>, f: FileLoc, w: seq<byte>)
    requires WindowClear(cat, v.nodeSize, f.node, f.off, FORK_SIZE) && |w| == FORK_SIZE
    ensures RecordAt(v, f) + |w| <= |cat|
    ensures SamePaths(v, cat, Patch(cat, RecordAt(v, f), w))
  {
    hide FindParts, Clear, Patch;
    forall path ensures FindFileSpec(Patch(cat, RecordAt(v, f), w), v.nodeSize, v.firstLeaf, v.lastLeaf, path)
                     == FindFileSpec(cat, v.nodeSize, v.firstLeaf, v.lastLeaf, path)
    {
      FindOutside(cat, v.nodeSize, f.node, f.off, w, v.firstLeaf, v.lastLeaf, Parts(path), ROOT_ID);
    }
  }

  /** Replacing a file inside its own extents. */
  lemma ReplaceInPlace(v: Volume, free: nat, img: seq<byte>, files: seq<FileLoc>, k: nat, payload: seq<byte>,
                       w: seq<byte>)
    requires WellFormed(v, free, img, files) && k < |files| && files[k] in files
    requires |payload| <= Len(|FileBlocks(v, CatView(v, img), files[k])|, v.blockSize)
    requires RecordAt(v, files[k]) + FORK_SIZE <= |CatView(v, img)|
    requires RecordFor(v, CatView(v, img), files[k], w, |payload|, FileBlocks(v, CatView(v, img), files[k]))
    requires NoDup(CatBlocks(v)) && NoDup(FileBlocks(v, CatView(v, img), files[k]))
    requires InVolume(v, FileBlocks(v, CatView(v, img), files[k]))
    requires Apart(CatBlocks(v), FileBlocks(v, CatView(v, img), files[k]))
    requires RecordBytes(v, CatView(v, img), Patch(CatView(v, img), RecordAt(v, files[k]), w), files[k], |payload|,
                         FileFork(v, CatView(v, img), files[k]).extents)
    ensures Replaced(v, free, img, free,
              Finished(v, img, files[k], FileBlocks(v, CatView(v, img), files[k]), payload, w), files, k, payload)
  {
    hide Clear, ScanFrom, NoDup, IsUsed, Finished, View, Len, Patch, Apart, InVolume, HeaderOk, Header, FindFileSpec,
         HitsListed, FreeSet, ForkAt, Ownership, FileBlocks, OnlyRecordMoved, FilesAfter, SamePaths, RecordBytes,
         Overlaid, FileFork;
    var cat := CatView(v, img);
    var f, ob := files[k], FileBlocks(v, cat, files[k]);
    var img' := Finished(v, img, f, ob, payload, w);
    FileApart(v, free, img, files, k);
    SystemOwners(v, free, img, files);
    FinishedEffect(v, img, f, ob, payload, w);
    FinishedHeader(v, img, f, ob, payload, w);
    FinishedOther(v, img, f, ob, payload, w, AllocBlocks(v));
    var cat' := Patch(cat, RecordAt(v, f), w);
    assert CatView(v, img') == cat' && Bitmap(v, img') == Bitmap(v, img);
    HitsPatched(v, cat, files, k, w);
    OwnedPatched(v, cat, files, k, w, ob);
    assert Owned(v, cat, files, 3 + k) == ob;
    OwnershipKept(v, cat, cat', files, Bitmap(v, img));
    assert WellFormed(v, free, img', files);
    PathsKept(v, cat, f, w);
    RecordMoved(v, cat, files, k, w);
    forall j | 0 <= j < |files| && j != k
      ensures files[j] in files && Apart(FileBlocks(v, cat, files[j]), ob) && InVolume(v, FileBlocks(v, cat, files[j]))
    {
      FileApart(v, free, img, files, j);
    }
    FilesKept(v, free, img, free, img', img, files, k, ob, payload, w);
  }

  lemma OtherKept(v: Volume, free: nat, img: seq<byte>, free': nat, img': seq<byte>, base: seq<byte>,
                  files: seq<FileLoc>, k: nat, nb: seq<nat>, payload: seq<byte>, w: seq<byte>, j: nat)
    requires WellFormed(v, free, img, files) && k < |files| && files[k] in files && j < |files| && j != k
    requires WellFormed(v, free', img', files)
    requires Geometry(v, base) && CatView(v, base) == CatView(v, img)
    requires InVolume(v, nb) && NoDup(nb) && |payload| <= Len(|nb|, v.blockSize) && Apart(CatBlocks(v), nb)
    requires NoDup(CatBlocks(v)) && |w| == FORK_SIZE
    requires img' == Finished(v, base, files[k], nb, payload, w)
    requires files[j] in files && Apart(FileBlocks(v, CatView(v, img), files[j]), nb)
    requires InVolume(v, FileBlocks(v, CatView(v, img), files[j]))
    requires ViewOf(v, base, FileBlocks(v, CatView(v, img), files[j])) == FileBytes(v, free, img, files, j)
    ensures FileFork(v, CatView(v, img'), files[j]) == FileFork(v, CatView(v, img), files[j])
    ensures FileBytes(v, free', img', files, j) == FileBytes(v, free, img, files, j)
  {
    hide Clear, ScanFrom, NoDup, IsUsed, Finished, View, Len, Patch, Apart, InVolume, HeaderOk, Header,
         HitsListed, FreeSet, ForkAt, Ownership;
    var cat := CatView(v, img);
    FinishedEffect(v, base, files[k], nb, payload, w);
    OtherForkPatched(v, cat, files, k, w, j);
    FileApart(v, free, img, files, j);
    ApartSym(CatBlocks(v), FileBlocks(v, cat, files[j]));
    FinishedOther(v, base, files[k], nb, payload, w, FileBlocks(v, cat, files[j]));
  }

  /** The moved or rewritten file itself: its size and every byte its extents hold. */
  lemma OwnKept(v: Volume, free: nat, img: seq<byte>, free': nat, img': seq<byte>, base: seq<byte>,
                files: seq<FileLoc>, k: nat, nb: seq<nat>, payload: seq<byte>, w: seq<byte>)
    requires WellFormed(v, free, img, files) && k < |files| && files[k] in files
    requires WellFormed(v, free', img', files)
    requires Geometry(v, base) && CatView(v, base) == CatView(v, img)
    requires InVolume(v, nb) && NoDup(nb) && |payload| <= Len(|nb|, v.blockSize) && Apart(CatBlocks(v), nb)
    requires NoDup(CatBlocks(v)) && |w| == FORK_SIZE
    requires RecordAt(v, files[k]) + FORK_SIZE <= |CatView(v, img)|
    requires RecordFor(v, CatView(v, img), files[k], w, |payload|, nb)
    requires img' == Finished(v, base, files[k], nb, payload, w)
    ensures FileFork(v, CatView(v, img'), files[k]).size == |payload|
    ensures FileBytes(v, free', img', files, k) == Overlaid(ViewOf(v, base, nb), payload, v.blockSize)
  {
    hide Clear, ScanFrom, NoDup, IsUsed, Finished, View, Len, Patch, Apart, InVolume, HeaderOk, Header,
         HitsListed, FreeSet, ForkAt, Ownership, Overlaid;
    FinishedEffect(v, base, files[k], nb, payload, w);
  }

  lemma OwnBytes(bs: nat, was: seq<byte>, here: seq<byte>, now: seq<byte>, payload: seq<byte>)
    requires 0 < bs && |payload| <= |here| && now == Overlaid(here, payload, bs)
    requires here == was || (|payload| > |was| && |here| == Len(CeilDiv(|payload|, bs), bs))
    ensures BytesAfter(bs, was, now, payload)
  {
    hide Overlaid, CeilDiv, Len, Zeros;
    if |payload| > |was| {
      PaddingSmall(|payload|, bs);
      OverlaidWhole(here, payload, bs);
    }
  }

  /** The clauses of `Replaced` about files. */
  lemma FilesKept(v: Volume, free: nat, img: seq<byte>, free': nat, img': seq<byte>, base: seq<byte>,
                  files: seq<FileLoc>, k: nat, nb: seq<nat>, payload: seq<byte>, w: seq<byte>)
    requires WellFormed(v, free, img, files) && k < |files| && files[k] in files
    requires WellFormed(v, free', img', files)
    requires Geometry(v, base) && CatView(v, base) == CatView(v, img)
    requires InVolume(v, nb) && NoDup(nb) && |payload| <= Len(|nb|, v.blockSize) && Apart(CatBlocks(v), nb)
    requires NoDup(CatBlocks(v)) && |w| == FORK_SIZE
    requires RecordAt(v, files[k]) + FORK_SIZE <= |CatView(v, img)|
    requires RecordFor(v, CatView(v, img), files[k], w, |payload|, nb)
    requires img' == Finished(v, base, files[k], nb, payload, w)
    requires forall j :: 0 <= j < |files| && j != k ==>
               && files[j] in files
               && Apart(FileBlocks(v, CatView(v, img), files[j]), nb)
               && InVolume(v, FileBlocks(v, CatView(v, img), files[j]))
               && ViewOf(v, base, FileBlocks(v, CatView(v, img), files[j])) == FileBytes(v, free, img, files, j)
    requires || ViewOf(v, base, nb) == FileBytes(v, free, img, files, k)
             || (|payload| > |FileBytes(v, free, img, files, k)| && |nb| == CeilDiv(|payload|, v.blockSize))
    ensures FilesAfter(v, free, img, free', img', files, k, payload)
  {
    hide Clear, ScanFrom, NoDup, IsUsed, Finished, View, Len, Patch, Apart, InVolume, HeaderOk, Header,
         HitsListed, FreeSet, ForkAt, Ownership, Overlaid, CeilDiv, BytesAfter, FileBytes, FileFork, RecordFor;
    OwnKept(v, free, img, free', img', base, files, k, nb, payload, w);
    OwnBytes(v.blockSize, FileBytes(v, free, img, files, k), ViewOf(v, base, nb), FileBytes(v, free', img', files, k),
             payload);
    forall j | 0 <= j < |files| && j != k
      ensures FileFork(v, CatView(v, img'), files[j]) == FileFork(v, CatView(v, img), files[j])
      ensures FileBytes(v, free', img', files, j) == FileBytes(v, free, img, files, j)
    {
      OtherKept(v, free, img, free', img', base, files, k, nb, payload, w, j);
    }
  }

  // ---------- grown and moved ----------

  lemma OneExtent(start: nat, count: nat)
    ensures Blocks([Extent(start, count)]) == Run(start, count)
  {
    assert [Extent(start, count)][1..] == [];
  }

  lemma RunFacts(v: Volume, bitmap: seq<byte>, start: nat, n: nat)
    requires start + n <= v.totalBlocks <= 8 * |bitmap| && AllClear(bitmap, start, n)
    ensures NoDup(Run(start, n)) && InVolume(v, Run(start, n))
    ensures forall b :: b in Run(start, n) ==> b < v.totalBlocks && !IsUsed(bitmap, b)
  {
    hide IsUsed;
  }

  lemma NoDupBound(blocks: seq<nat>, n: nat)
    requires NoDup(blocks) && forall b :: b in blocks ==> b < n
    ensures |blocks| <= n
  {
    SetOfSize(blocks);
    BoundedSet(SetOf(blocks), n);
  }

  lemma SizeFits(v: Volume, img: seq<byte>, blocks: seq<nat>, n: nat)
    requires Geometry(v, img) && v.blockSize < TWO32 && NoDup(blocks) && InVolume(v, blocks)
    requires n <= Len(|blocks|, v.blockSize)
    ensures n < TWO64 && CeilDiv(n, v.blockSize) < TWO32
  {
    NoDupBound(blocks, v.totalBlocks);
    CeilDivBlocks(n, v.blockSize, |blocks|);
    LenMul(|blocks|, v.blockSize);
    MulLe(|blocks|, TWO32, v.blockSize);
    MulLe(v.blockSize, TWO32, TWO32);
  }

  lemma BlockSize32(v: Volume, free: nat, h: seq<byte>)
    requires |h| == HDR_LEN && HeaderOk(v, free, h)
    ensures v.blockSize < TWO32
  {
    hide ForkAt;
  }

  lemma RecordPacks(v: Volume, cat: seq<byte>, f: FileLoc, clump: seq<byte>, size: nat, total: nat, ext: seq<Extent>)
    requires RecordAt(v, f) + FORK_SIZE <= |cat|
    requires |clump| == 4 && size < TWO64 && total < TWO32 && |ext| <= 8 && Encodable(ext)
    ensures RecordFor(v, cat, f, ForkRecord(clump, size, total, ext), size, Blocks(ext))
  {
    hide ForkRecord, ForkAt, Patch, Blocks, NonEmpty;
    var w := ForkRecord(clump, size, total, ext);
    ForkRoundTrip(Patch(cat, RecordAt(v, f), w), RecordAt(v, f), clump, size, total, ext);
    NonEmptyBlocks(ext);
  }

  lemma MarkedLength(bitmap: seq<byte>, marked: seq<byte>, nb: seq<nat>, ob: seq<nat>)
    requires Remarked(bitmap, marked, nb, ob)
    ensures |marked| == |bitmap|
  {
  }

  /** The bitmap after `nb` is taken and `ob` released, in that order. */
  ghost predicate Remarked(bitmap: seq<byte>, bitmap': seq<byte>, nb: seq<nat>, ob: seq<nat>) {
    && |bitmap'| == |bitmap|
    && forall b: nat :: b < 8 * |bitmap| ==>
         IsUsed(bitmap', b) == if b in ob then false else if b in nb then true else IsUsed(bitmap, b)
  }

  /** A run of clear bits belongs to nobody. */
  lemma ClearRunIsFree(v: Volume, free: nat, img: seq<byte>, files: seq<FileLoc>, nb: seq<nat>, i: nat)
    requires WellFormed(v, free, img, files) && i < 3 + |files|
    requires forall b :: b in nb ==> b < v.totalBlocks && !IsUsed(Bitmap(v, img), b)
    ensures Apart(Owned(v, CatView(v, img), files, i), nb)
  {
    hide NoDup, HitsListed, HeaderOk, FreeSet, Owned, Clear;
    assert OwnerOk(v, CatView(v, img), files, Bitmap(v, img), i);
  }

  lemma NewRunApart(v: Volume, free: nat, img: seq<byte>, files: seq<FileLoc>, nb: seq<nat>)
    requires WellFormed(v, free, img, files)
    requires forall b :: b in nb ==> b < v.totalBlocks && !IsUsed(Bitmap(v, img), b)
    ensures HdrBlock(v) !in nb && Apart(AllocBlocks(v), nb) && Apart(CatBlocks(v), nb)
    ensures forall j :: 0 <= j < |files| ==> files[j] in files && Apart(FileBlocks(v, CatView(v, img), files[j]), nb)
  {
    hide NoDup, HitsListed, HeaderOk, FreeSet, Clear, FileBlocks, IsUsed, Ownership;
    var cat := CatView(v, img);
    ClearRunIsFree(v, free, img, files, nb, 0);
    ClearRunIsFree(v, free, img, files, nb, 1);
    ClearRunIsFree(v, free, img, files, nb, 2);
    assert HdrBlock(v) in Owned(v, cat, files, 0);
    forall j | 0 <= j < |files| ensures files[j] in files && Apart(FileBlocks(v, cat, files[j]), nb) {
      assert files[j] in files;
      ClearRunIsFree(v, free, img, files, nb, 3 + j);
    }
  }

  /** Conservation of the free count across a move. */
  lemma FreeAfterMove(v: Volume, free: nat, img: seq<byte>, files: seq<FileLoc>, k: nat, nb: seq<nat>,
                      bitmap': seq<byte>)
    requires WellFormed(v, free, img, files) && k < |files| && files[k] in files && NoDup(nb)
    requires forall b :: b in nb ==> b < v.totalBlocks && !IsUsed(Bitmap(v, img), b)
    requires Remarked(Bitmap(v, img), bitmap', nb, FileBlocks(v, CatView(v, img), files[k]))
    ensures v.totalBlocks <= 8 * |bitmap'|
    ensures |FreeSet(bitmap', v.totalBlocks)| == free + |FileBlocks(v, CatView(v, img), files[k])| - |nb|
    ensures |FreeSet(bitmap', v.totalBlocks)| <= v.totalBlocks && |nb| <= free
  {
    hide NoDup, HitsListed, HeaderOk, Header, Clear, FreeSet, IsUsed, View, Blocks, Len, FileFork;
    var ob := FileBlocks(v, CatView(v, img), files[k]);
    assert OwnerOk(v, CatView(v, img), files, Bitmap(v, img), 3 + k);
    assert Owned(v, CatView(v, img), files, 3 + k) == ob;
    MoveConserves(Bitmap(v, img), bitmap', v.totalBlocks, nb, ob);
  }

  lemma HeaderFree(v: Volume, was: nat, h: seq<byte>, free: nat)
    requires |h| == HDR_LEN && HeaderOk(v, was, h) && free < TWO32
    ensures HeaderOk(v, free, Patch(h, FREE_BLOCKS_OFF, EncBe32(free)))
  {
    hide ForkAt, EncBe32, Be32, Patch;
    var e := EncBe32(free);
    var h' := Patch(h, FREE_BLOCKS_OFF, e);
    FieldsOutside(h, FREE_BLOCKS_OFF, e, 0);
    FieldsOutside(h, FREE_BLOCKS_OFF, e, 40);
    FieldsOutside(h, FREE_BLOCKS_OFF, e, 44);
    SameFields(h', e, FREE_BLOCKS_OFF, 0, 4);
    SliceOfPatch(h, FREE_BLOCKS_OFF, e, ALLOCATION_FILE_OFF, FORK_SIZE);
    SameFork(h', ALLOCATION_FILE_OFF, h, ALLOCATION_FILE_OFF);
    SliceOfPatch(h, FREE_BLOCKS_OFF, e, CATALOG_FILE_OFF, FORK_SIZE);
    SameFork(h', CATALOG_FILE_OFF, h, CATALOG_FILE_OFF);
  }

  /** The header and bitmap writes, seen from the catalog and the files. */
  lemma BitmapOther(v: Volume, img: seq<byte>, free: nat, bitmap: seq<byte>, other: seq<nat>)
    requires Geometry(v, img) && Forks(v) && |bitmap| == v.alloc.size && free < TWO32
    requires NoDup(AllocBlocks(v)) && HdrBlock(v) !in AllocBlocks(v)
    requires InVolume(v, other) && HdrBlock(v) !in other && Apart(AllocBlocks(v), other)
    ensures Geometry(v, BitmapWritten(v, img, free, bitmap))
    ensures ViewOf(v, BitmapWritten(v, img, free, bitmap), other) == ViewOf(v, img, other)
  {
    hide BitmapWritten, View, BlockOf, NoDup, Len, Patch, Header;
    BitmapEffect(v, img, free, bitmap);
    ApartSym(AllocBlocks(v), other);
    ApartConcat(other, [HdrBlock(v)], AllocBlocks(v));
    OutsideView(v, img, BitmapWritten(v, img, free, bitmap), [HdrBlock(v)] + AllocBlocks(v), other);
  }

  lemma BitmapKeepsCatalog(v: Volume, free: nat, img: seq<byte>, files: seq<FileLoc>, free': nat, bitmap: seq<byte>)
    requires WellFormed(v, free, img, files) && |bitmap| == v.alloc.size && free' < TWO32
    ensures Geometry(v, BitmapWritten(v, img, free', bitmap))
    ensures CatView(v, BitmapWritten(v, img, free', bitmap)) == CatView(v, img)
  {
    hide BitmapWritten, View, BlockOf, NoDup, Len, Patch, Header, Ownership, HitsListed, Locs, HeaderOk, FreeSet;
    SystemOwners(v, free, img, files);
    BitmapOther(v, img, free', bitmap, CatBlocks(v));
  }

  /** The tool about to move file `k`: the payload outgrows its blocks, the first free run is found and marked. */
  ghost predicate Moving(v: Volume, free: nat, img: seq<byte>, files: seq<FileLoc>, k: nat, payload: seq<byte>, s: nat,
                         bitmap': seq<byte>)
    requires WellFormed(v, free, img, files) && k < |files|
  {
    && files[k] in files && |payload| > |FileBytes(v, free, img, files, k)|
    && var cat, n := CatView(v, img), CeilDiv(|payload|, v.blockSize);
    && FirstRun(v, Bitmap(v, img), s, n)
    && Remarked(Bitmap(v, img), bitmap', Run(s, n), FileBlocks(v, cat, files[k]))
  }

  ghost function MovedFree(v: Volume, free: nat, img: seq<byte>, files: seq<FileLoc>, k: nat, size: nat): int
    requires WellFormed(v, free, img, files) && k < |files| && files[k] in files
  {
    free + |FileBlocks(v, CatView(v, img), files[k])| - CeilDiv(size, v.blockSize)
  }

  /** What the writes of a move ask for. */
  lemma MovingFacts(v: Volume, free: nat, img: seq<byte>, files: seq<FileLoc>, k: nat, payload: seq<byte>, s: nat,
                    bitmap': seq<byte>)
    requires WellFormed(v, free, img, files) && k < |files| && Moving(v, free, img, files, k, payload, s, bitmap')
    ensures var nb := Run(s, CeilDiv(|payload|, v.blockSize));
            && NoDup(nb) && InVolume(v, nb) && |payload| <= Len(|nb|, v.blockSize)
            && (forall b :: b in nb ==> b < v.totalBlocks && !IsUsed(Bitmap(v, img), b))
            && Apart(CatBlocks(v), nb) && |bitmap'| == v.alloc.size
            && |payload| < TWO64 && s < TWO32 && CeilDiv(|payload|, v.blockSize) < TWO32
            && RecordAt(v, files[k]) + FORK_SIZE <= |CatView(v, img)|
            && WindowClear(CatView(v, img), v.nodeSize, files[k].node, files[k].off, FORK_SIZE)
            && 0 <= MovedFree(v, free, img, files, k, |payload|) < TWO32
            && |FreeSet(bitmap', v.totalBlocks)| == MovedFree(v, free, img, files, k, |payload|)
  {
    hide Clear, ScanFrom, NoDup, IsUsed, View, Len, Patch, Apart, InVolume, HeaderOk, Header, FindFileSpec,
         HitsListed, FreeSet, ForkAt, Ownership, FileBlocks, FileBytes, CeilDiv, AllClear, Run;
    var n := CeilDiv(|payload|, v.blockSize);
    RequiredBlocks(|payload|, v.blockSize);
    RunFacts(v, Bitmap(v, img), s, n);
    NewRunApart(v, free, img, files, Run(s, n));
    BlockSize32(v, free, Header(img));
    SizeFits(v, img, Run(s, n), |payload|);
    MarkedLength(Bitmap(v, img), bitmap', Run(s, n), FileBlocks(v, CatView(v, img), files[k]));
    FreeAfterMove(v, free, img, files, k, Run(s, n), bitmap');
    RecordInCatalog(v, CatView(v, img), files[k]);
  }

  ghost function MovedRecord(v: Volume, free: nat, img: seq<byte>, files: seq<FileLoc>, k: nat, payload: seq<byte>,
                             s: nat, bitmap': seq<byte>): (w: seq<byte>)
    requires WellFormed(v, free, img, files) && k < |files| && Moving(v, free, img, files, k, payload, s, bitmap')
    ensures |w| == FORK_SIZE
  {
    MovingFacts(v, free, img, files, k, payload, s, bitmap');
    RewrittenFork(v, CatView(v, img), files[k], |payload|, [Extent(s, CeilDiv(|payload|, v.blockSize))])
  }

  /** The image with the free count and the bitmap of a move. */
  ghost function MovedBase(v: Volume, free: nat, img: seq<byte>, files: seq<FileLoc>, k: nat, payload: seq<byte>,
                           s: nat, bitmap': seq<byte>): (base: seq<byte>)
    requires WellFormed(v, free, img, files) && k < |files| && Moving(v, free, img, files, k, payload, s, bitmap')
    ensures |base| == |img| && Geometry(v, base) && CatView(v, base) == CatView(v, img)
  {
    MovingFacts(v, free, img, files, k, payload, s, bitmap');
    var free' := MovedFree(v, free, img, files, k, |payload|);
    BitmapKeepsCatalog(v, free, img, files, free', bitmap');
    BitmapWritten(v, img, free', bitmap')
  }

  /** The image after all the writes of a move. */
  ghost function MovedImage(v: Volume, free: nat, img: seq<byte>, files: seq<FileLoc>, k: nat, payload: seq<byte>,
                            s: nat, bitmap': seq<byte>): (r: seq<byte>)
    requires WellFormed(v, free, img, files) && k < |files| && Moving(v, free, img, files, k, payload, s, bitmap')
    ensures |r| == |img|
  {
    MovingFacts(v, free, img, files, k, payload, s, bitmap');
    Finished(v, MovedBase(v, free, img, files, k, payload, s, bitmap'), files[k],
             Run(s, CeilDiv(|payload|, v.blockSize)), payload, MovedRecord(v, free, img, files, k, payload, s, bitmap'))
  }

  /** The writes of a move, seen from the header, the bitmap, the catalog and the rest of the image. */
  lemma MovedEffect(v: Volume, free: nat, img: seq<byte>, files: seq<FileLoc>, k: nat, payload: seq<byte>,
                    s: nat, bitmap': seq<byte>)
    requires WellFormed(v, free, img, files) && k < |files| && Moving(v, free, img, files, k, payload, s, bitmap')
    ensures var img', nb := MovedImage(v, free, img, files, k, payload, s, bitmap'),
                            Run(s, CeilDiv(|payload|, v.blockSize));
            var w, free' := MovedRecord(v, free, img, files, k, payload, s, bitmap'),
                            MovedFree(v, free, img, files, k, |payload|);
            && Geometry(v, img') && RecordAt(v, files[k]) + FORK_SIZE <= |CatView(v, img)| && 0 <= free' < TWO32
            && Header(img') == Patch(Header(img), FREE_BLOCKS_OFF, EncBe32(free')) && Bitmap(v, img') == bitmap'
            && CatView(v, img') == Patch(CatView(v, img), RecordAt(v, files[k]), w)
            && SameOutside(v.blockSize, img, img', [HdrBlock(v)] + AllocBlocks(v) + (nb + CatBlocks(v)))
  {
    hide Clear, ScanFrom, NoDup, IsUsed, Finished, View, Len, Patch, Apart, InVolume, HeaderOk, Header, FindFileSpec,
         HitsListed, FreeSet, ForkAt, Ownership, FileBlocks, BitmapWritten, SameOutside, Moving, CeilDiv, Run,
         MovedRecord, EncBe32;
    MovingFacts(v, free, img, files, k, payload, s, bitmap');
    var base, nb := MovedBase(v, free, img, files, k, payload, s, bitmap'), Run(s, CeilDiv(|payload|, v.blockSize));
    var w := MovedRecord(v, free, img, files, k, payload, s, bitmap');
    SystemOwners(v, free, img, files);
    NewRunApart(v, free, img, files, nb);
    BitmapEffect(v, img, MovedFree(v, free, img, files, k, |payload|), bitmap');
    FinishedEffect(v, base, files[k], nb, payload, w);
    FinishedHeader(v, base, files[k], nb, payload, w);
    FinishedOther(v, base, files[k], nb, payload, w, AllocBlocks(v));
    OutsideTwice(v.blockSize, img, base, Finished(v, base, files[k], nb, payload, w), [HdrBlock(v)] + AllocBlocks(v),
                 nb + CatBlocks(v));
  }

  /** The new record unpacks to the run. */
  lemma MovedFork(v: Volume, free: nat, img: seq<byte>, files: seq<FileLoc>, k: nat, payload: seq<byte>, s: nat,
                  bitmap': seq<byte>)
    requires WellFormed(v, free, img, files) && k < |files| && Moving(v, free, img, files, k, payload, s, bitmap')
    ensures RecordAt(v, files[k]) + FORK_SIZE <= |CatView(v, img)|
    ensures RecordFor(v, CatView(v, img), files[k], MovedRecord(v, free, img, files, k, payload, s, bitmap'),
                      |payload|, Run(s, CeilDiv(|payload|, v.blockSize)))
  {
    hide Moving, RecordFor, CeilDiv, Run, ForkRecord, FileBlocks, Locs, HitsListed, Ownership, HeaderOk, View, FreeSet,
         Blocks, Len;
    MovingFacts(v, free, img, files, k, payload, s, bitmap');
    var cat, n := CatView(v, img), CeilDiv(|payload|, v.blockSize);
    OneExtent(s, n);
    RecordPacks(v, cat, files[k], cat[RecordAt(v, files[k]) + 8..RecordAt(v, files[k]) + 12], |payload|, n,
                [Extent(s, n)]);
  }

  /** After a move the volume is well formed again. */
  lemma MovedWellFormed(v: Volume, free: nat, img: seq<byte>, files: seq<FileLoc>, k: nat, payload: seq<byte>,
                        s: nat, bitmap': seq<byte>)
    requires WellFormed(v, free, img, files) && k < |files| && Moving(v, free, img, files, k, payload, s, bitmap')
    ensures 0 <= MovedFree(v, free, img, files, k, |payload|)
    ensures WellFormed(v, MovedFree(v, free, img, files, k, |payload|),
                       MovedImage(v, free, img, files, k, payload, s, bitmap'), files)
  {
    hide Clear, ScanFrom, NoDup, IsUsed, MovedImage, MovedRecord, View, Len, Patch, Apart, InVolume, HeaderOk, Header,
         FindFileSpec, HitsListed, FreeSet, ForkAt, Ownership, FileBlocks, CeilDiv, Run, FirstRun, FileBytes;
    var cat, f := CatView(v, img), files[k];
    var nb, w := Run(s, CeilDiv(|payload|, v.blockSize)), MovedRecord(v, free, img, files, k, payload, s, bitmap');
    MovingFacts(v, free, img, files, k, payload, s, bitmap');
    MovedEffect(v, free, img, files, k, payload, s, bitmap');
    MovedFork(v, free, img, files, k, payload, s, bitmap');
    HeaderFree(v, free, Header(img), MovedFree(v, free, img, files, k, |payload|));
    HitsPatched(v, cat, files, k, w);
    OwnedPatched(v, cat, files, k, w, nb);
    assert Owned(v, cat, files, 3 + k) == FileBlocks(v, cat, f);
    OwnershipMoved(v, cat, Patch(cat, RecordAt(v, f), w), files, k, Bitmap(v, img), bitmap', nb);
  }

  lemma RecordMoved(v: Volume, cat: seq<byte>, files: seq<FileLoc>, k: nat, w: seq<byte>)
    requires Locs(v, cat, files) && k < |files| && |w| == FORK_SIZE
    ensures RecordAt(v, files[k]) + FORK_SIZE <= |cat|
    ensures OnlyRecordMoved(v, cat, Patch(cat, RecordAt(v, files[k]), w), files[k])
  {
    hide Clear, Patch, Len;
    assert files[k] in files;
    RecordInCatalog(v, cat, files[k]);
  }

  /** Replacing a file by moving it to a free run. */
  lemma ReplaceMoved(v: Volume, free: nat, img: seq<byte>, files: seq<FileLoc>, k: nat, payload: seq<byte>, s: nat,
                     bitmap': seq<byte>)
    requires WellFormed(v, free, img, files) && k < |files| && Moving(v, free, img, files, k, payload, s, bitmap')
    ensures 0 <= MovedFree(v, free, img, files, k, |payload|)
    ensures Replaced(v, free, img, MovedFree(v, free, img, files, k, |payload|),
                     MovedImage(v, free, img, files, k, payload, s, bitmap'), files, k, payload)
  {
    hide Clear, ScanFrom, NoDup, IsUsed, MovedImage, View, Len, Patch, Apart, InVolume, HeaderOk, Header, FindFileSpec,
         HitsListed, FreeSet, ForkAt, Ownership, FileBlocks, OnlyRecordMoved, FilesAfter, SamePaths, RecordBytes,
         Overlaid, FileFork, CeilDiv, FirstRun, Remarked, EncBe32, Run, MovedRecord, FileBytes, SpaceAfter, Moving;
    var cat, w := CatView(v, img), MovedRecord(v, free, img, files, k, payload, s, bitmap');
    MovingFacts(v, free, img, files, k, payload, s, bitmap');
    MovedWellFormed(v, free, img, files, k, payload, s, bitmap');
    MovedEffect(v, free, img, files, k, payload, s, bitmap');
    PathsKept(v, cat, files[k], w);
    RecordMoved(v, cat, files, k, w);
    MovedSpace(v, free, img, files, k, payload, s, bitmap');
    MovedFiles(v, free, img, files, k, payload, s, bitmap');
  }

  lemma MovedSpace(v: Volume, free: nat, img: seq<byte>, files: seq<FileLoc>, k: nat, payload: seq<byte>, s: nat,
                   bitmap': seq<byte>)
    requires WellFormed(v, free, img, files) && k < |files| && Moving(v, free, img, files, k, payload, s, bitmap')
    ensures 0 <= MovedFree(v, free, img, files, k, |payload|)
    ensures var free', img' := MovedFree(v, free, img, files, k, |payload|),
                               MovedImage(v, free, img, files, k, payload, s, bitmap');
            WellFormed(v, free', img', files) && SpaceAfter(v, free, img, free', img', files, k, |payload|)
  {
    hide NoDup, IsUsed, MovedImage, View, Len, Patch, Apart, InVolume, Header, FirstRun, ForkRecord,
         ForkAt, FileBlocks, Remarked, EncBe32, Run, SameOutside, CeilDiv, FileBytes, HeaderOk, Locs,
         HitsListed, Ownership, FreeSet;
    MovingFacts(v, free, img, files, k, payload, s, bitmap');
    MovedWellFormed(v, free, img, files, k, payload, s, bitmap');
    MovedEffect(v, free, img, files, k, payload, s, bitmap');
    assert MovesTo(v, free, img, MovedFree(v, free, img, files, k, |payload|),
                   MovedImage(v, free, img, files, k, payload, s, bitmap'), files[k], |payload|, s);
  }

  lemma MovedFiles(v: Volume, free: nat, img: seq<byte>, files: seq<FileLoc>, k: nat, payload: seq<byte>, s: nat,
                   bitmap': seq<byte>)
    requires WellFormed(v, free, img, files) && k < |files| && Moving(v, free, img, files, k, payload, s, bitmap')
    ensures 0 <= MovedFree(v, free, img, files, k, |payload|)
    ensures var free', img' := MovedFree(v, free, img, files, k, |payload|),
                               MovedImage(v, free, img, files, k, payload, s, bitmap');
            WellFormed(v, free', img', files) && FilesAfter(v, free, img, free', img', files, k, payload)
  {
    hide Clear, ScanFrom, NoDup, IsUsed, Finished, View, Len, Patch, Apart, InVolume, HeaderOk, Header, RecordFor,
         HitsListed, FreeSet, ForkAt, Ownership, FileBlocks, BitmapWritten, FilesAfter,
         CeilDiv, FirstRun, Remarked, Run, MovedRecord;
    var cat, base := CatView(v, img), MovedBase(v, free, img, files, k, payload, s, bitmap');
    var free', nb := MovedFree(v, free, img, files, k, |payload|), Run(s, CeilDiv(|payload|, v.blockSize));
    MovingFacts(v, free, img, files, k, payload, s, bitmap');
    MovedWellFormed(v, free, img, files, k, payload, s, bitmap');
    MovedFork(v, free, img, files, k, payload, s, bitmap');
    SystemOwners(v, free, img, files);
    NewRunApart(v, free, img, files, nb);
    forall j | 0 <= j < |files| && j != k
      ensures files[j] in files && Apart(FileBlocks(v, cat, files[j]), nb) && InVolume(v, FileBlocks(v, cat, files[j]))
      ensures ViewOf(v, base, FileBlocks(v, cat, files[j])) == FileBytes(v, free, img, files, j)
    {
      FileApart(v, free, img, files, j);
      BitmapOther(v, img, free', bitmap', FileBlocks(v, cat, files[j]));
    }
    FilesKept(v, free, img, free', MovedImage(v, free, img, files, k, payload, s, bitmap'), base, files, k, nb, payload,
              MovedRecord(v, free, img, files, k, payload, s, bitmap'));
  }
}
