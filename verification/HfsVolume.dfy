/**
  Well-formed HFS+ volumes as the image tool needs them, and what a whole file replacement does
  to one. `files` lists where the fork records of the files are; it may list records the scan
  never reaches.
  */
module HfsVolume {
  import opened Bytes
  import opened Blocking
  import opened HfsExtents
  import opened HfsBitmap
  import opened HfsForkRecord
  import opened HfsCatalog

  const HDR_OFF := 1024
  const HDR_LEN := 512
  const FREE_BLOCKS_OFF := 48
  const ALLOCATION_FILE_OFF := 112
  const CATALOG_FILE_OFF := 272

  /** What `mount` keeps of the volume, except for the free count, which changes. */
  datatype Volume = Volume(blockSize: nat, totalBlocks: nat, alloc: Fork, cat: Fork,
                           nodeSize: nat, firstLeaf: nat, lastLeaf: nat)

  /** The fork record of a file: a catalog node and an offset in it. */
  datatype FileLoc = FileLoc(node: nat, off: nat)

  // ---------- views ----------

  ghost predicate Geometry(v: Volume, img: seq<byte>) {
    && 0 < v.blockSize && v.blockSize % HDR_LEN == 0
    && v.totalBlocks < TWO32
    && Len(v.totalBlocks, v.blockSize) <= |img|
    && HDR_OFF + HDR_LEN <= Len(v.totalBlocks, v.blockSize)
  }

  function HdrBlock(v: Volume): nat
    requires 0 < v.blockSize
  {
    BlockOf(HDR_OFF, v.blockSize)
  }

  function Header(img: seq<byte>): (h: seq<byte>)
    requires HDR_OFF + HDR_LEN <= |img|
    ensures |h| == HDR_LEN
  {
    img[HDR_OFF..HDR_OFF + HDR_LEN]
  }

  predicate InVolume(v: Volume, blocks: seq<nat>) {
    forall b :: b in blocks ==> b < v.totalBlocks
  }

  lemma InVolumeInImage(v: Volume, img: seq<byte>, blocks: seq<nat>)
    requires Geometry(v, img) && InVolume(v, blocks)
    ensures InImage(img, v.blockSize, blocks)
  {
    forall b | b in blocks ensures Len(b + 1, v.blockSize) <= |img| {
      LenMono(b + 1, v.totalBlocks, v.blockSize);
    }
  }

  ghost function ViewOf(v: Volume, img: seq<byte>, blocks: seq<nat>): (r: seq<byte>)
    requires Geometry(v, img) && InVolume(v, blocks)
    ensures |r| == Len(|blocks|, v.blockSize)
  {
    InVolumeInImage(v, img, blocks);
    View(img, v.blockSize, blocks)
  }

  function AllocBlocks(v: Volume): seq<nat> {
    Blocks(v.alloc.extents)
  }

  function CatBlocks(v: Volume): seq<nat> {
    Blocks(v.cat.extents)
  }

  /** Both system forks lie in the volume and are as long as the tool needs them. */
  ghost predicate Forks(v: Volume) {
    && InVolume(v, AllocBlocks(v)) && InVolume(v, CatBlocks(v))
    && 0 < v.blockSize && 512 <= v.nodeSize < TWO16
    && 0 < v.alloc.size <= Len(|AllocBlocks(v)|, v.blockSize)
    && v.totalBlocks <= 8 * v.alloc.size
  }

  ghost function CatView(v: Volume, img: seq<byte>): seq<byte>
    requires Geometry(v, img) && Forks(v)
  {
    ViewOf(v, img, CatBlocks(v))
  }

  ghost function Bitmap(v: Volume, img: seq<byte>): (r: seq<byte>)
    requires Geometry(v, img) && Forks(v)
    ensures |r| == v.alloc.size
  {
    ViewOf(v, img, AllocBlocks(v))[..v.alloc.size]
  }

  ghost predicate FreeRunAt(v: Volume, bitmap: seq<byte>, s: nat, n: nat) {
    s + n <= v.totalBlocks <= 8 * |bitmap| && AllClear(bitmap, s, n)
  }

  ghost predicate RunExists(v: Volume, bitmap: seq<byte>, n: nat) {
    exists s: nat :: FreeRunAt(v, bitmap, s, n)
  }

  /** The free run of `n` blocks that starts first. */
  ghost predicate FirstRun(v: Volume, bitmap: seq<byte>, s: nat, n: nat) {
    FreeRunAt(v, bitmap, s, n) && forall t: nat :: t < s ==> !FreeRunAt(v, bitmap, t, n)
  }

  // ---------- files ----------

  ghost predicate Locs(v: Volume, cat: seq<byte>, files: seq<FileLoc>) {
    && (forall f :: f in files ==> 0 < f.node && WindowClear(cat, v.nodeSize, f.node, f.off, FORK_SIZE))
    && (forall i, j :: 0 <= i < j < |files| && files[i].node == files[j].node ==>
          Disjoint(files[i].off, files[i].off + FORK_SIZE, files[j].off, files[j].off + FORK_SIZE))
  }

  ghost function FileFork(v: Volume, cat: seq<byte>, f: FileLoc): Fork
    requires WindowClear(cat, v.nodeSize, f.node, f.off, FORK_SIZE)
  {
    ForkAt(cat, Len(f.node, v.nodeSize) + f.off)
  }

  ghost function FileBlocks(v: Volume, cat: seq<byte>, f: FileLoc): seq<nat>
    requires WindowClear(cat, v.nodeSize, f.node, f.off, FORK_SIZE)
  {
    Blocks(FileFork(v, cat, f).extents)
  }

  // ---------- ownership of blocks ----------

  /** Owner 0 is the header block, 1 the allocation file, 2 the catalog, 3 + i file number i. */
  ghost function Owned(v: Volume, cat: seq<byte>, files: seq<FileLoc>, i: nat): seq<nat>
    requires 0 < v.blockSize && Locs(v, cat, files) && i < 3 + |files|
  {
    if i == 0 then [HdrBlock(v)]
    else if i == 1 then AllocBlocks(v)
    else if i == 2 then CatBlocks(v)
    else FileBlocks(v, cat, files[i - 3])
  }

  ghost predicate OwnerOk(v: Volume, cat: seq<byte>, files: seq<FileLoc>, bitmap: seq<byte>, i: nat)
    requires 0 < v.blockSize && Locs(v, cat, files) && i < 3 + |files| && v.totalBlocks <= 8 * |bitmap|
  {
    && NoDup(Owned(v, cat, files, i))
    && forall b :: b in Owned(v, cat, files, i) ==> b < v.totalBlocks && IsUsed(bitmap, b)
  }

  ghost predicate OwnersApart(v: Volume, cat: seq<byte>, files: seq<FileLoc>, i: nat, j: nat)
    requires 0 < v.blockSize && Locs(v, cat, files) && i < 3 + |files| && j < 3 + |files|
  {
    i != j ==> Apart(Owned(v, cat, files, i), Owned(v, cat, files, j))
  }

  /** Owned blocks are in range, marked used, and owned once. */
  ghost predicate Ownership(v: Volume, cat: seq<byte>, files: seq<FileLoc>, bitmap: seq<byte>)
    requires 0 < v.blockSize && Locs(v, cat, files) && v.totalBlocks <= 8 * |bitmap|
  {
    && (forall i: nat :: i < 3 + |files| ==> OwnerOk(v, cat, files, bitmap, i))
    && (forall i: nat, j: nat :: i < 3 + |files| && j < 3 + |files| ==> OwnersApart(v, cat, files, i, j))
  }

  // ---------- well-formedness ----------

  ghost predicate HeaderOk(v: Volume, free: nat, h: seq<byte>)
    requires |h| == HDR_LEN
  {
    && GoodSignature(h)
    && Be32(h, 40) == v.blockSize && Be32(h, 44) == v.totalBlocks && Be32(h, FREE_BLOCKS_OFF) == free
    && ForkAt(h, ALLOCATION_FILE_OFF) == v.alloc && ForkAt(h, CATALOG_FILE_OFF) == v.cat
  }

  /** Every file the scan can find is one of `files`. */
  ghost predicate HitsListed(v: Volume, cat: seq<byte>, files: seq<FileLoc>)
    requires 0 < v.nodeSize
  {
    forall p: nat, t: seq<byte> :: Listed(v, cat, files, p, t)
  }

  ghost predicate Listed(v: Volume, cat: seq<byte>, files: seq<FileLoc>, p: nat, t: seq<byte>)
    requires 0 < v.nodeSize
  {
    var s := ScanFrom(cat, v.nodeSize, v.firstLeaf, v.lastLeaf, p, t);
    t != [] && s.Hit? && s.kind == FILE_RECORD && s.dataOff + DATA_FORK_OFF + FORK_SIZE <= v.nodeSize ==>
      FileLoc(s.node, s.dataOff + DATA_FORK_OFF) in files
  }

  ghost predicate WellFormed(v: Volume, free: nat, img: seq<byte>, files: seq<FileLoc>) {
    && Geometry(v, img) && Forks(v)
    && HeaderOk(v, free, Header(img))
    && Locs(v, CatView(v, img), files)
    && HitsListed(v, CatView(v, img), files)
    && Ownership(v, CatView(v, img), files, Bitmap(v, img))
    && free == |FreeSet(Bitmap(v, img), v.totalBlocks)|
  }

  /** The bytes of a listed file: everything its extents allocate. */
  ghost function FileBytes(v: Volume, free: nat, img: seq<byte>, files: seq<FileLoc>, i: nat): seq<byte>
    requires WellFormed(v, free, img, files) && i < |files|
  {
    FileInVolume(v, CatView(v, img), files, Bitmap(v, img), i);
    ViewOf(v, img, FileBlocks(v, CatView(v, img), files[i]))
  }

  lemma FileInVolume(v: Volume, cat: seq<byte>, files: seq<FileLoc>, bitmap: seq<byte>, i: nat)
    requires 0 < v.blockSize && Locs(v, cat, files) && v.totalBlocks <= 8 * |bitmap| && i < |files|
    requires Ownership(v, cat, files, bitmap)
    ensures files[i] in files
    ensures InVolume(v, FileBlocks(v, cat, files[i])) && NoDup(FileBlocks(v, cat, files[i]))
  {
    hide FileBlocks, Clear, IsUsed, NoDup;
    assert files[i] in files;
    assert OwnerOk(v, cat, files, bitmap, 3 + i);
    assert Owned(v, cat, files, 3 + i) == FileBlocks(v, cat, files[i]);
  }

  // ---------- writes and what they leave alone ----------

  /** The two images differ at most in the given blocks. */
  ghost predicate SameOutside(bs: nat, img: seq<byte>, img': seq<byte>, blocks: seq<nat>)
    requires 0 < bs
  {
    |img'| == |img| && forall p :: 0 <= p < |img| && BlockOf(p, bs) !in blocks ==> img'[p] == img[p]
  }

  lemma ScatterSameOutside(v: Volume, img: seq<byte>, blocks: seq<nat>, off: nat, data: seq<byte>)
    requires Geometry(v, img) && InVolume(v, blocks) && off + |data| <= Len(|blocks|, v.blockSize)
    ensures InImage(img, v.blockSize, blocks)
    ensures SameOutside(v.blockSize, img, Scatter(img, v.blockSize, blocks, off, data), blocks)
  {
    hide Scatter, BlockOf;
    InVolumeInImage(v, img, blocks);
    var img' := Scatter(img, v.blockSize, blocks, off, data);
    forall p | 0 <= p < |img| && BlockOf(p, v.blockSize) !in blocks ensures img'[p] == img[p] {
      ScatterFrame(img, v.blockSize, blocks, off, data, p);
    }
  }

  lemma OutsideView(v: Volume, img: seq<byte>, img': seq<byte>, blocks: seq<nat>, other: seq<nat>)
    requires Geometry(v, img) && SameOutside(v.blockSize, img, img', blocks)
    requires InVolume(v, other) && Apart(other, blocks)
    ensures Geometry(v, img') && ViewOf(v, img', other) == ViewOf(v, img, other)
  {
    hide View, BlockOf, Len;
    InVolumeInImage(v, img, other);
    ViewFrame(img, img', v.blockSize, other);
  }

  lemma {:induction false} LenMultiple(n: nat, bs: nat)
    requires bs % 512 == 0
    ensures Len(n, bs) % 512 == 0
  {
    if n != 0 {
      LenMultiple(n - 1, bs);
    }
  }

  /** The header sector lies inside one block. */
  lemma HeaderInBlock(v: Volume, img: seq<byte>, p: nat)
    requires Geometry(v, img) && HDR_OFF <= p < HDR_OFF + HDR_LEN
    ensures BlockOf(p, v.blockSize) == HdrBlock(v)
  {
    var bs := v.blockSize;
    var q := HdrBlock(v);
    Cut(HDR_OFF, bs);
    LenMultiple(q, bs);
    Join(q, Within(HDR_OFF, bs) + p - HDR_OFF, bs);
  }

  lemma OutsideHeader(v: Volume, img: seq<byte>, img': seq<byte>, blocks: seq<nat>)
    requires Geometry(v, img) && SameOutside(v.blockSize, img, img', blocks) && HdrBlock(v) !in blocks
    ensures Header(img') == Header(img)
  {
    forall i | 0 <= i < HDR_LEN ensures Header(img')[i] == Header(img)[i] {
      HeaderInBlock(v, img, HDR_OFF + i);
    }
  }

  lemma HeaderPatch(v: Volume, img: seq<byte>, off: nat, d: seq<byte>)
    requires Geometry(v, img) && off + |d| <= HDR_LEN
    ensures SameOutside(v.blockSize, img, Patch(img, HDR_OFF + off, d), [HdrBlock(v)])
    ensures Header(Patch(img, HDR_OFF + off, d)) == Patch(Header(img), off, d)
  {
    var img' := Patch(img, HDR_OFF + off, d);
    SliceOfPatch(img, HDR_OFF + off, d, HDR_OFF, HDR_LEN);
    forall p | 0 <= p < |img| && BlockOf(p, v.blockSize) !in [HdrBlock(v)] ensures img'[p] == img[p] {
      if HDR_OFF <= p < HDR_OFF + HDR_LEN {
        HeaderInBlock(v, img, p);
      }
    }
  }

  // ---------- the B-tree header, as `mount` reads it ----------

  const HEADER_NODE := 4096
  const FIRST_LEAF_OFF := 24
  const LAST_LEAF_OFF := 28
  const NODE_SIZE_OFF := 32
  const TOTAL_NODES_OFF := 36
  const HEADER_FIELDS := 40

  function NodeSizeOf(cat: seq<byte>): (ns: nat)
    requires HEADER_FIELDS <= |cat|
    ensures 0 < ns
  {
    if Be16(cat, NODE_SIZE_OFF) == 0 then HEADER_NODE else Be16(cat, NODE_SIZE_OFF)
  }

  /** The leaf range of the header, or every node but the first when it makes no sense. */
  function HostRange(first: nat, last: nat, total: nat): (nat, nat) {
    if first == 0 || last == 0 || last < first then (1, if total < 2 then 1 else total - 1) else (first, last)
  }

  /** A header without a leaf range makes the scan visit every node but the header node; with one, that range. */
  lemma HostRangeNodes(first: nat, last: nat, total: nat, n: nat)
    requires 2 <= total
    ensures var r := HostRange(first, last, total);
            r.0 <= n <= r.1 <==> if 0 < first <= last then first <= n <= last else 0 < n < total
  {
  }

  /** Node size and leaf range are those of this header node. */
  ghost predicate LeafFields(v: Volume, cat: seq<byte>) {
    && HEADER_FIELDS <= |cat|
    && v.nodeSize == NodeSizeOf(cat)
    && (v.firstLeaf, v.lastLeaf)
    == HostRange(Be32(cat, FIRST_LEAF_OFF), Be32(cat, LAST_LEAF_OFF), Be32(cat, TOTAL_NODES_OFF))
  }

  ghost predicate LeafInfo(v: Volume, cat: seq<byte>) {
    HEADER_NODE <= |cat| && LeafFields(v, cat)
  }

  predicate GoodSignature(h: seq<byte>)
    requires 2 <= |h|
  {
    Be16(h, 0) == 0x482B || Be16(h, 0) == 0x4858
  }
}
