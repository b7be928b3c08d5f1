/** The host-side image tool: an HFS+ image edited in place. */
module HfsImage {
  import opened Bytes
  import opened Blocking
  import opened HfsExtents
  import opened HfsBitmap
  import opened HfsForkRecord
  import opened HfsCatalog
  import opened HfsVolume
  import opened HfsReplace

  datatype Outcome = Allocated(bytes: nat) | Raise(e: PyError)

  // ---------- record surgery ----------

  lemma PatchAppend(b: seq<byte>, o: nat, d: seq<byte>, e: seq<byte>)
    requires o + |d| + |e| <= |b|
    ensures Patch(Patch(b, o, d), o + |d|, e) == Patch(b, o, d + e)
  {
  }

  lemma {:induction false} ExtentBytesAppend(ext: seq<Extent>, e: Extent)
    requires Encodable(ext) && e.start < TWO32 && e.count < TWO32
    ensures Encodable(ext + [e])
    ensures ExtentBytes(ext + [e]) == ExtentBytes(ext) + EncBe32(e.start) + EncBe32(e.count)
  {
    hide EncBe32;
    assert Encodable(ext + [e]);
    if ext == [] {
      assert ext + [e] == [e] && [e][1..] == [];
      assert ExtentBytes([e]) == EncBe32(e.start) + EncBe32(e.count) + ExtentBytes([e][1..]);
    } else {
      assert (ext + [e])[1..] == ext[1..] + [e];
      ExtentBytesAppend(ext[1..], e);
    }
  }

  lemma FourPatches(b: seq<byte>, o: nat, s: seq<byte>, t: seq<byte>, e: seq<byte>)
    requires o + 80 <= |b| && |s| == 8 && |t| == 4 && |e| <= 64
    ensures Patch(Patch(Patch(Patch(b, o, s), o + 12, t), o + 16, Zeros(64)), o + 16, e)
         == Patch(b, o, s + b[o + 8..o + 12] + t + e + Zeros(64 - |e|))
  {
    var x := Patch(Patch(Patch(Patch(b, o, s), o + 12, t), o + 16, Zeros(64)), o + 16, e);
    var d := s + b[o + 8..o + 12] + t + e + Zeros(64 - |e|);
    forall i | 0 <= i < |b| ensures x[i] == Patch(b, o, d)[i] {
      if o + 16 <= i < o + 80 {
        assert d[i - o] == if i < o + 16 + |e| then e[i - o - 16] else 0;
      }
    }
  }

  /** The loop that clears the eight extent slots. */
  method ClearSlots(node: seq<byte>, at: nat) returns (r: seq<byte>)
    requires at + 64 <= |node|
    ensures r == Patch(node, at, Zeros(64))
  {
    hide EncBe32, Zeros, Patch, Be32;
    r := node;
    NoPatch(r, at);
    for i := 0 to 8
      invariant r == Patch(node, at, Zeros(8 * i))
    {
      ZeroWords(i);
      PatchAppend(node, at, Zeros(8 * i), EncBe32(0));
      r := Patch(r, at + 8 * i, EncBe32(0));
      PatchAppend(node, at, Zeros(8 * i) + EncBe32(0), EncBe32(0));
      r := Patch(r, at + 8 * i + 4, EncBe32(0));
    }
  }

  /** The loop that stores the extents. */
  method PutSlots(node: seq<byte>, at: nat, extents: seq<Extent>) returns (r: seq<byte>)
    requires |extents| <= 8 && at + 64 <= |node| && Encodable(extents)
    ensures r == Patch(node, at, ExtentBytes(extents))
  {
    hide EncBe32, Patch, ExtentBytes, Be32;
    r := node;
    NoPatch(r, at);
    NoExtents(extents[..0]);
    for i := 0 to |extents|
      invariant Encodable(extents[..i])
      invariant r == Patch(node, at, ExtentBytes(extents[..i]))
    {
      ghost var done := ExtentBytes(extents[..i]);
      var e := extents[i];
      assert e in extents && extents[..i + 1] == extents[..i] + [e];
      ExtentBytesAppend(extents[..i], e);
      PatchAppend(node, at, done, EncBe32(e.start));
      r := Patch(r, at + 8 * i, EncBe32(e.start));
      PatchAppend(node, at, done + EncBe32(e.start), EncBe32(e.count));
      r := Patch(r, at + 8 * i + 4, EncBe32(e.count));
    }
    assert extents[..|extents|] == extents;
  }

  lemma NoExtents(ext: seq<Extent>)
    requires ext == []
    ensures ExtentBytes(ext) == []
  {
  }

  /** The puts that rewrite a fork record inside a node. */
  method PutForkRecord(node: seq<byte>, forkOff: nat, size: nat, totalBlocks: nat, extents: seq<Extent>)
    returns (r: seq<byte>)
    requires forkOff + FORK_SIZE <= |node| && size < TWO64 && totalBlocks < TWO32 && |extents| <= 8
    requires Encodable(extents)
    ensures r == Patch(node, forkOff, ForkRecord(node[forkOff + 8..forkOff + 12], size, totalBlocks, extents))
  {
    hide EncBe32, EncBe64, Zeros, Patch, ExtentBytes, Be32, Be64;
    r := Patch(node, forkOff, EncBe64(size));
    r := Patch(r, forkOff + 12, EncBe32(totalBlocks));
    r := ClearSlots(r, forkOff + 16);
    r := PutSlots(r, forkOff + 16, extents);
    FourPatches(node, forkOff, EncBe64(size), EncBe32(totalBlocks), ExtentBytes(extents));
  }

  lemma ZeroWords(i: nat)
    ensures Zeros(8 * i) + EncBe32(0) + EncBe32(0) == Zeros(8 * (i + 1))
  {
  }

  // ---------- the scan loop over one leaf ----------

  method ScanLeaf(id: nat, node: seq<byte>, parent: nat, target: seq<byte>) returns (s: Scan)
    requires 12 <= |node|
    ensures s == ScanNode(id, node, parent, target, 0)
  {
    hide KeyMatches, AsciiName, Be16;
    var records := Be16(node, 10);
    var index := |node| - 2 * (records + 1);
    var rec := 0;
    while rec < records
      invariant 0 <= rec <= records
      invariant ScanNode(id, node, parent, target, 0) == ScanNode(id, node, parent, target, rec)
    {
      var slot := if index + rec * 2 < 0 then index + rec * 2 + |node| else index + rec * 2;
      if slot < 0 || slot + 2 > |node| {
        return Raised(StructError);
      }
      var recOff := Be16(node, slot);
      if recOff + 8 > |node| || recOff + 8 + 2 * Be16(node, recOff + 6) > |node| {
        return Raised(StructError);
      }
      var dataOff := recOff + 2 + Be16(node, recOff);
      if KeyMatches(node, recOff, parent, target) {
        if dataOff + 2 > |node| {
          return Raised(StructError);
        }
        return Hit(id, dataOff, Be16(node, dataOff));
      }
      rec := rec + 1;
    }
    return Miss;
  }

  // ---------- forks ----------

  /** The loop that unpacks a fork record and drops empty extents. */
  method ForkFrom(buf: seq<byte>, off: nat) returns (f: Fork)
    requires off + FORK_SIZE <= |buf|
    ensures f == ForkAt(buf, off)
  {
    var raw := RawExtents(buf, off);
    var extents: seq<Extent> := [];
    assert raw[8..] == [] && extents + NonEmpty(raw[0..]) == NonEmpty(raw) by { assert raw[0..] == raw; }
    for i := 0 to 8
      invariant extents + NonEmpty(raw[i..]) == NonEmpty(raw)
    {
      var e := ExtentAt(buf, off + 16 + 8 * i);
      SlotField(buf, off, i);
      assert raw[i] == e && raw[i..][1..] == raw[i + 1..];
      if e.count != 0 {
        assert extents + ([e] + NonEmpty(raw[i + 1..])) == (extents + [e]) + NonEmpty(raw[i + 1..]);
        extents := extents + [e];
      }
    }
    f := Fork(Be64(buf, off), extents);
  }

  lemma SlotField(buf: seq<byte>, off: nat, i: nat)
    requires off + FORK_SIZE <= |buf| && i < 8
    ensures RawExtents(buf, off)[i] == ExtentAt(buf, off + 16 + 8 * i)
  {
  }

  method AllocatedBlocks(extents: seq<Extent>) returns (n: nat)
    ensures n == |Blocks(extents)|
  {
    n := 0;
    assert extents[0..] == extents;
    for i := 0 to |extents|
      invariant n + |Blocks(extents[i..])| == |Blocks(extents)|
    {
      assert extents[i..][1..] == extents[i + 1..];
      n := n + extents[i].count;
    }
  }

  /** A decoded fork packs again. */
  lemma ForkPacks(b: seq<byte>, o: nat)
    requires o + FORK_SIZE <= |b|
    ensures Encodable(ForkAt(b, o).extents) && |ForkAt(b, o).extents| <= 8
    ensures NonEmpty(ForkAt(b, o).extents) == ForkAt(b, o).extents
  {
    hide Be32, Be64, NonEmpty;
    NonEmptyBlocks(RawExtents(b, o));
    NonEmptyTwice(RawExtents(b, o));
  }

  lemma {:induction false} NonEmptyTwice(ext: seq<Extent>)
    ensures NonEmpty(NonEmpty(ext)) == NonEmpty(ext)
  {
    if ext != [] {
      NonEmptyTwice(ext[1..]);
      if ext[0].count != 0 {
        assert ([ext[0]] + NonEmpty(ext[1..]))[1..] == NonEmpty(ext[1..]);
      }
    }
  }

  // ---------- facts a replacement starts from ----------

  /** The record built from the bytes of the node is the one built from the catalog. */
  lemma RecordFromNode(v: Volume, cat: seq<byte>, f: FileLoc, size: nat, ext: seq<Extent>)
    requires WindowClear(cat, v.nodeSize, f.node, f.off, FORK_SIZE) && 0 < v.blockSize
    requires size < TWO64 && CeilDiv(size, v.blockSize) < TWO32 && |ext| <= 8 && Encodable(ext)
    ensures var node := Node(cat, v.nodeSize, f.node);
            && RecordAt(v, f) + FORK_SIZE <= |cat|
            && var w := ForkRecord(node[f.off + 8..f.off + 12], size, CeilDiv(size, v.blockSize), ext);
               w == RewrittenFork(v, cat, f, size, ext)
                   && RecordBytes(v, cat, Patch(cat, RecordAt(v, f), w), f, size, ext)
  {
    hide Len, ForkRecord, Clear, CeilDiv, Patch;
    var node := Node(cat, v.nodeSize, f.node);
    LenNext(f.node, v.nodeSize);
    SubSlice(cat, Len(f.node, v.nodeSize), node, f.off + 8, 4);
  }

  lemma FirstIsFree(v: Volume, bitmap: seq<byte>, s: nat, n: nat)
    requires FirstRun(v, bitmap, s, n)
    ensures FreeRunAt(v, bitmap, s, n)
  {
  }

  lemma FileAllocation(v: Volume, free: nat, img: seq<byte>, files: seq<FileLoc>, k: nat)
    requires WellFormed(v, free, img, files) && k < |files| && files[k] in files
    ensures |FileBytes(v, free, img, files, k)| == Len(|FileBlocks(v, CatView(v, img), files[k])|, v.blockSize)
  {
    hide WellFormed, FileBlocks, Len;
  }

  /** What the tool reports as allocated is what the extents of the file now hold. */
  lemma AllocatedBytes(v: Volume, free: nat, img: seq<byte>, free': nat, img': seq<byte>, files: seq<FileLoc>, k: nat,
                       payload: seq<byte>)
    requires WellFormed(v, free, img, files) && k < |files|
    requires Replaced(v, free, img, free', img', files, k, payload)
    ensures |FileBytes(v, free', img', files, k)|
         == if |payload| <= |FileBytes(v, free, img, files, k)| then |FileBytes(v, free, img, files, k)|
            else Len(CeilDiv(|payload|, v.blockSize), v.blockSize)
  {
    hide FileBytes, WellFormed, SpaceAfter, SamePaths, OnlyRecordMoved, FileFork, CeilDiv, Len, Overlaid;
  }

  /** A record's fork is the same read from the catalog and from its node. */
  lemma WindowBytes(v: Volume, cat: seq<byte>, f: FileLoc)
    requires WindowClear(cat, v.nodeSize, f.node, f.off, FORK_SIZE)
    ensures FileFork(v, cat, f) == ForkAt(Node(cat, v.nodeSize, f.node), f.off)
  {
    hide Len, ForkAt, Clear;
    var node := Node(cat, v.nodeSize, f.node);
    LenNext(f.node, v.nodeSize);
    SubSlice(cat, Len(f.node, v.nodeSize), node, f.off, FORK_SIZE);
    SameFork(node, f.off, cat, RecordAt(v, f));
  }

  /** The record a path leads to is a listed file. */
  lemma FoundListed(v: Volume, free: nat, img: seq<byte>, files: seq<FileLoc>, path: seq<byte>) returns (k: nat)
    requires WellFormed(v, free, img, files)
    requires var f := FindFileSpec(CatView(v, img), v.nodeSize, v.firstLeaf, v.lastLeaf, path);
             f.File? && f.dataOff + DATA_FORK_OFF + FORK_SIZE <= v.nodeSize
    ensures var f := FindFileSpec(CatView(v, img), v.nodeSize, v.firstLeaf, v.lastLeaf, path);
            && k < |files| && files[k] == FileLoc(f.node, f.dataOff + DATA_FORK_OFF)
            && WindowClear(CatView(v, img), v.nodeSize, f.node, f.dataOff + DATA_FORK_OFF, FORK_SIZE)
            && FileFork(v, CatView(v, img), files[k])
            == ForkAt(Node(CatView(v, img), v.nodeSize, f.node), f.dataOff + DATA_FORK_OFF)
  {
    hide FindFileSpec, Clear, View, ForkAt, Ownership, FreeSet, HeaderOk, Len, Node, HitsListed, Blocks;
    var cat := CatView(v, img);
    k := ListedAt(v, cat, files, path);
    assert files[k] in files;
    WindowBytes(v, cat, files[k]);
  }

  lemma ListedAt(v: Volume, cat: seq<byte>, files: seq<FileLoc>, path: seq<byte>) returns (k: nat)
    requires 0 < v.nodeSize && HitsListed(v, cat, files)
    requires var f := FindFileSpec(cat, v.nodeSize, v.firstLeaf, v.lastLeaf, path);
             f.File? && f.dataOff + DATA_FORK_OFF + FORK_SIZE <= v.nodeSize
    ensures var f := FindFileSpec(cat, v.nodeSize, v.firstLeaf, v.lastLeaf, path);
            k < |files| && files[k] == FileLoc(f.node, f.dataOff + DATA_FORK_OFF)
  {
    hide ScanFrom, FindParts, Len, Node, IsLeaf;
    var f := FindFileSpec(cat, v.nodeSize, v.firstLeaf, v.lastLeaf, path);
    PartsNonEmpty(path);
    FoundFile(cat, v.nodeSize, v.firstLeaf, v.lastLeaf, Parts(path), ROOT_ID);
    var p: nat, t: seq<byte> :| t != [] && ScanFrom(cat, v.nodeSize, v.firstLeaf, v.lastLeaf, p, t)
        == Hit(f.node, f.dataOff, FILE_RECORD);
    assert Listed(v, cat, files, p, t);
    k :| 0 <= k < |files| && files[k] == FileLoc(f.node, f.dataOff + DATA_FORK_OFF);
  }

  lemma ScatterNothing(img: seq<byte>, bs: nat, blocks: seq<nat>, off: nat, data: seq<byte>)
    requires 0 < bs && InImage(img, bs, blocks) && off + |data| <= Len(|blocks|, bs)
    ensures data == [] ==> Scatter(img, bs, blocks, off, data) == img
  {
  }

  /** The leaf range and node size, from the first 4096 bytes of the catalog. */
  method TreeHeader(node0: seq<byte>) returns (first: nat, last: nat, nodeSize: nat)
    requires HEADER_FIELDS <= |node0|
    ensures nodeSize == NodeSizeOf(node0)
    ensures (first, last) == HostRange(Be32(node0, FIRST_LEAF_OFF), Be32(node0, LAST_LEAF_OFF),
                                       Be32(node0, TOTAL_NODES_OFF))
  {
    hide Be32, Be16;
    first, last := Be32(node0, FIRST_LEAF_OFF), Be32(node0, LAST_LEAF_OFF);
    nodeSize := Be16(node0, NODE_SIZE_OFF);
    var totalNodes := Be32(node0, TOTAL_NODES_OFF);
    if nodeSize == 0 {
      nodeSize := HEADER_NODE;
    }
    if first == 0 || last == 0 || last < first {
      first := 1;
      last := if totalNodes < 2 then 1 else totalNodes - 1;
    }
  }

  lemma TreeHeaderOf(cat: seq<byte>)
    requires HEADER_NODE <= |cat|
    ensures NodeSizeOf(cat[0..HEADER_NODE]) == NodeSizeOf(cat)
    ensures HostRange(Be32(cat[0..HEADER_NODE], FIRST_LEAF_OFF), Be32(cat[0..HEADER_NODE], LAST_LEAF_OFF),
                      Be32(cat[0..HEADER_NODE], TOTAL_NODES_OFF))
         == HostRange(Be32(cat, FIRST_LEAF_OFF), Be32(cat, LAST_LEAF_OFF), Be32(cat, TOTAL_NODES_OFF))
  {
  }

  /** When a replacement is possible: the path leads to a file record inside its node, and the
      payload fits the file's extents, or growing is allowed and there is a free run for it. */
  ghost predicate CanReplace(v: Volume, img: seq<byte>, path: seq<byte>, size: nat, allowGrow: bool)
    requires Geometry(v, img) && Forks(v)
  {
    var cat := CatView(v, img);
    var f := FindFileSpec(cat, v.nodeSize, v.firstLeaf, v.lastLeaf, path);
    && f.File? && f.dataOff + DATA_FORK_OFF + FORK_SIZE <= v.nodeSize
    && Len(f.node + 1, v.nodeSize) <= |cat|
    && var fork := ForkAt(Node(cat, v.nodeSize, f.node), f.dataOff + DATA_FORK_OFF);
       || size <= Len(|Blocks(fork.extents)|, v.blockSize)
       || (allowGrow && RunExists(v, Bitmap(v, img), CeilDiv(size, v.blockSize)))
  }

  /** When the tool mounts an image. */
  ghost predicate CanMount(img: seq<byte>) {
    && HDR_OFF + HDR_LEN <= |img| && GoodSignature(Header(img)) && 0 < Be32(Header(img), 40)
    && var bs, blocks := Be32(Header(img), 40), Blocks(ForkAt(Header(img), CATALOG_FILE_OFF).extents);
       HEADER_NODE <= Len(|blocks|, bs) && HEADER_FIELDS <= |Existing(img, bs, blocks, 0, HEADER_NODE)|
  }

  class HFSPlusImage {
    var image: seq<byte>
    var blockSize: nat
    var totalBlocks: nat
    var freeBlocks: nat
    var allocation: Fork
    var catalog: Fork
    var nodeSize: nat
    var firstLeaf: nat
    var lastLeaf: nat

    /** An image opened and not mounted yet. */
    constructor (image: seq<byte>)
      ensures this.image == image && Vol() == Volume(0, 0, Fork(0, []), Fork(0, []), HEADER_NODE, 1, 1)
      ensures freeBlocks == 0
    {
      this.image := image;
      blockSize, totalBlocks, freeBlocks, nodeSize, firstLeaf, lastLeaf := 0, 0, 0, HEADER_NODE, 1, 1;
      allocation, catalog := Fork(0, []), Fork(0, []);
    }

    ghost function Vol(): Volume
      reads this
    {
      Volume(blockSize, totalBlocks, allocation, catalog, nodeSize, firstLeaf, lastLeaf)
    }

    ghost predicate Mounted()
      reads this
    {
      Geometry(Vol(), image) && Forks(Vol())
    }

    method ReadNode(id: nat) returns (r: ReadResult)
      requires Mounted()
      ensures r.Data? <==> Len(id + 1, nodeSize) <= |CatView(Vol(), image)|
      ensures r.Data? ==> r.data == Node(CatView(Vol(), image), nodeSize, id)
    {
      hide View, Blocks, BlockOf;
      InVolumeInImage(Vol(), image, Blocks(catalog.extents));
      LenMul(id, nodeSize);
      LenNext(id, nodeSize);
      r := ReadFork(image, blockSize, catalog, id * nodeSize, nodeSize);
    }

    /** Read the volume header and the B-tree header. Anything but `true` is an exception: a bad signature, a header or
        header node too short for its fields, a zero block size to divide by, or extents that do not cover the node. */
    method Mount() returns (ok: bool)
      modifies this
      ensures image == old(image)
      ensures ok <==> CanMount(image)
      ensures ok ==> && HeaderOk(Vol(), freeBlocks, Header(image))
                     && LeafFields(Vol(), Existing(image, blockSize, CatBlocks(Vol()), 0, HEADER_NODE))
                     && (InImage(image, blockSize, CatBlocks(Vol())) ==>
                           LeafInfo(Vol(), View(image, blockSize, CatBlocks(Vol()))))
    {
      hide Blocks, Len, View, Be64, RawExtents, BlockOf, Be32, Be16, ForkAt, InImage, NonEmpty, Existing;
      var vh := ReadAt(image, HDR_OFF, HDR_LEN);
      if |vh| < HDR_LEN {
        return false;
      }
      var sig := Be16(vh, 0);
      if sig != 0x482B && sig != 0x4858 {
        return false;
      }
      blockSize, totalBlocks, freeBlocks := Be32(vh, 40), Be32(vh, 44), Be32(vh, FREE_BLOCKS_OFF);
      allocation := ForkFrom(vh, ALLOCATION_FILE_OFF);
      catalog := ForkFrom(vh, CATALOG_FILE_OFF);
      if blockSize == 0 {
        return false;
      }
      var read := ReadFork(image, blockSize, catalog, 0, HEADER_NODE);
      if read.ExtentNotFound? || |read.data| < HEADER_FIELDS {
        return false;
      }
      firstLeaf, lastLeaf, nodeSize := TreeHeader(read.data);
      if InImage(image, blockSize, Blocks(catalog.extents)) {
        TreeHeaderOf(View(image, blockSize, Blocks(catalog.extents)));
      }
      return true;
    }

    /** Linear scan of the leaves for a child of `parent`. */
    method ScanChild(parent: nat, target: seq<byte>) returns (s: Scan, node: seq<byte>)
      requires Mounted()
      ensures s == ScanFrom(CatView(Vol(), image), nodeSize, firstLeaf, lastLeaf, parent, target)
      ensures s.Hit? ==> && Len(s.node + 1, nodeSize) <= |CatView(Vol(), image)|
                         && node == Node(CatView(Vol(), image), nodeSize, s.node)
    {
      hide ScanNode, View, Blocks, Len, Node, Geometry;
      ghost var cat := CatView(Vol(), image);
      node := [];
      var id := firstLeaf;
      while id <= lastLeaf
        invariant ScanFrom(cat, nodeSize, firstLeaf, lastLeaf, parent, target)
               == ScanFrom(cat, nodeSize, id, lastLeaf, parent, target)
        decreases lastLeaf + 1 - id
      {
        var read := ReadNode(id);
        if read.ExtentNotFound? {
          return Raised(RuntimeError), [];
        }
        node := read.data;
        if node[8] == LEAF_KIND {
          s := ScanLeaf(id, node, parent, target);
          if !s.Miss? {
            ScanNodeHit(id, node, parent, target, 0);
            ScanHit(cat, nodeSize, id, lastLeaf, parent, target);
            return;
          }
        }
        id := id + 1;
      }
      return Miss, [];
    }

    /** Walk a path from the root folder down to a file record. */
    method FindFile(path: seq<byte>) returns (f: Find, node: seq<byte>)
      requires Mounted()
      ensures f == FindFileSpec(CatView(Vol(), image), nodeSize, firstLeaf, lastLeaf, path)
      ensures f.File? ==> && Len(f.node + 1, nodeSize) <= |CatView(Vol(), image)|
                          && node == Node(CatView(Vol(), image), nodeSize, f.node)
    {
      hide ScanFrom, View, Blocks, Len, Node, Be32;
      ghost var cat := CatView(Vol(), image);
      var parent: nat := ROOT_ID;
      var parts := DropEmpty(SplitOn(path));
      SplitParts(path);
      node := [];
      var i := 0;
      assert parts[0..] == parts;
      while i < |parts|
        invariant 0 <= i <= |parts|
        invariant FindParts(cat, nodeSize, firstLeaf, lastLeaf, parts, ROOT_ID)
               == FindParts(cat, nodeSize, firstLeaf, lastLeaf, parts[i..], parent)
      {
        var s, hitNode := ScanChild(parent, parts[i]);
        assert parts[i..][0] == parts[i] && parts[i..][1..] == parts[i + 1..];
        match s {
          case Miss => return Failed(RuntimeError), [];
          case Raised(e) => return Failed(e), [];
          case Hit(n, d, kind) =>
            if i == |parts| - 1 {
              if kind != FILE_RECORD {
                return Failed(RuntimeError), [];
              }
              return File(n, d), hitNode;
            }
            if kind != FOLDER_RECORD {
              return Failed(RuntimeError), [];
            }
            if d + 12 > |hitNode| {
              return Failed(StructError), [];
            }
            parent := Be32(hitNode, d + 8);
        }
        i := i + 1;
      }
      return Failed(RuntimeError), [];
    }

    method WriteAllocationBitmapAndHeader(bitmap: seq<byte>, free: nat)
      requires Mounted() && |bitmap| == allocation.size && free < TWO32
      modifies this`image, this`freeBlocks
      ensures image == BitmapWritten(Vol(), old(image), free, bitmap)
      ensures freeBlocks == free
    {
      hide Scatter, View, Blocks, Len, Patch, EncBe32;
      var vh := image[HDR_OFF..HDR_OFF + HDR_LEN];
      vh := Patch(vh, FREE_BLOCKS_OFF, EncBe32(free));
      PatchPatch(image, HDR_OFF, HDR_LEN, FREE_BLOCKS_OFF, EncBe32(free));
      image := Patch(image, HDR_OFF, vh);
      InVolumeInImage(Vol(), image, Blocks(allocation.extents));
      var ok;
      image, ok := WriteFork(image, blockSize, allocation, 0, bitmap);
      freeBlocks := free;
    }

    /** Payload, zero tail, fork record: the part of the replacement both branches share. */
    method WriteDataAndRecord(fork: Fork, nodeId: nat, node: seq<byte>, forkOff: nat, payload: seq<byte>)
      requires Mounted() && 0 < blockSize
      requires InVolume(Vol(), Blocks(fork.extents)) && NoDup(Blocks(fork.extents))
      requires |payload| <= Len(|Blocks(fork.extents)|, blockSize) && Apart(CatBlocks(Vol()), Blocks(fork.extents))
      requires WindowClear(CatView(Vol(), image), nodeSize, nodeId, forkOff, FORK_SIZE)
      requires node == Node(CatView(Vol(), image), nodeSize, nodeId)
      requires |fork.extents| <= 8 && Encodable(fork.extents) && |payload| < TWO64
      requires CeilDiv(|payload|, blockSize) < TWO32
      modifies this`image
      ensures image == Finished(Vol(), old(image), FileLoc(nodeId, forkOff), Blocks(fork.extents), payload,
                ForkRecord(node[forkOff + 8..forkOff + 12], |payload|, CeilDiv(|payload|, blockSize), fork.extents))
    {
      hide Scatter, View, Blocks, Len, Patch, Zeros, ForkRecord, Clear, NoDup, Apart, CeilDiv;
      ghost var v, base := Vol(), image;
      var n := AllocatedBlocks(fork.extents);
      LenMul(n, blockSize);
      var alloc := n * blockSize;
      DataEffect(v, base, Blocks(fork.extents), payload);
      InVolumeInImage(v, image, Blocks(fork.extents));
      var ok;
      image, ok := WriteFork(image, blockSize, fork, 0, payload);
      ScatterNothing(base, blockSize, Blocks(fork.extents), 0, payload);
      ghost var a := image;
      if |payload| < alloc {
        var zeroLen := Min(blockSize, alloc - |payload|);
        image, ok := WriteFork(image, blockSize, fork, |payload|, Zeros(zeroLen));
      } else {
        ScatterNothing(a, blockSize, Blocks(fork.extents), |payload|, Zeros(0));
      }
      assert image == DataWritten(v, base, Blocks(fork.extents), payload);
      OutsideView(v, base, image, Blocks(fork.extents), CatBlocks(v));
      var node' := PutForkRecord(node, forkOff, |payload|, CeilDiv(|payload|, blockSize), fork.extents);
      LenMul(nodeId, nodeSize);
      LenNext(nodeId, nodeSize);
      InVolumeInImage(v, image, CatBlocks(v));
      image, ok := WriteFork(image, blockSize, catalog, nodeId * nodeSize, node');
    }

    method ReadAllocationBitmap() returns (bitmap: seq<byte>)
      requires Mounted()
      ensures bitmap == Bitmap(Vol(), image)
    {
      hide View, Blocks, Len;
      InVolumeInImage(Vol(), image, AllocBlocks(Vol()));
      var r := ReadFork(image, blockSize, allocation, 0, allocation.size);
      bitmap := r.data;
    }

    /** Find a free run for `required` blocks and mark the bitmap: the run taken, the old extents released. */
    method TakeRun(required: nat, oldFork: Fork, ghost files: seq<FileLoc>, ghost k: nat)
      returns (run: Option<nat>, marked: seq<byte>)
      requires WellFormed(Vol(), freeBlocks, image, files) && k < |files| && files[k] in files && 0 < required
      requires FileFork(Vol(), CatView(Vol(), image), files[k]) == oldFork
      ensures run.Some? <==> RunExists(Vol(), Bitmap(Vol(), image), required)
      ensures run.Some? ==>
                && FirstRun(Vol(), Bitmap(Vol(), image), run.value, required)
                && Remarked(Bitmap(Vol(), image), marked, Run(run.value, required),
                            FileBlocks(Vol(), CatView(Vol(), image), files[k]))
    {
      hide ScanFrom, View, Blocks, Len, Clear, NoDup, Apart, IsUsed, HeaderOk, Ownership, HitsListed, FreeSet, ForkAt;
      var bitmap := ReadAllocationBitmap();
      marked := bitmap;
      var past;
      run, past := FindFreeRun(bitmap, totalBlocks, required);
      if run.Some? {
        assert FreeRunAt(Vol(), bitmap, run.value, required);
        OneExtent(run.value, required);
        RunFacts(Vol(), bitmap, run.value, required);
        FileApart(Vol(), freeBlocks, image, files, k);
        marked := MarkBlocks(bitmap, [Extent(run.value, required)], true);
        marked := MarkBlocks(marked, oldFork.extents, false);
      }
    }

    /** The growing branch: take a free run, release the old extents, then write. */
    method GrowFile(nodeId: nat, node: seq<byte>, forkOff: nat, oldFork: Fork, payload: seq<byte>,
                    ghost files: seq<FileLoc>, ghost k: nat)
      returns (moved: bool, alloc: nat)
      requires WellFormed(Vol(), freeBlocks, image, files) && k < |files| && files[k] == FileLoc(nodeId, forkOff)
      requires files[k] in files
      requires WindowClear(CatView(Vol(), image), nodeSize, nodeId, forkOff, FORK_SIZE)
      requires node == Node(CatView(Vol(), image), nodeSize, nodeId) && forkOff + FORK_SIZE <= |node|
      requires FileFork(Vol(), CatView(Vol(), image), files[k]) == oldFork
      requires |payload| > Len(|Blocks(oldFork.extents)|, blockSize) && 0 < blockSize < TWO32
      modifies this`image, this`freeBlocks
      ensures moved <==> RunExists(Vol(), Bitmap(Vol(), old(image)), CeilDiv(|payload|, blockSize))
      ensures !moved ==> image == old(image) && freeBlocks == old(freeBlocks)
      ensures moved ==> && Replaced(Vol(), old(freeBlocks), old(image), freeBlocks, image, files, k, payload)
                        && alloc == |FileBytes(Vol(), freeBlocks, image, files, k)|
    {
      hide ScanFrom, View, Blocks, Len, Patch, ForkRecord, ForkAt, Clear, NoDup, Apart, CeilDiv, WindowClear, Remarked,
           Finished, BitmapWritten, Replaced, IsUsed, Be32, Node, RecordFor, HeaderOk, Ownership, HitsListed, FreeSet,
           AllClear, Run, FirstRun, RecordBytes, FileBytes, RewrittenFork, Locs, InVolume, Header;
      ghost var v, img, cat := Vol(), image, CatView(Vol(), image);
      var required := CeilDiv(|payload|, blockSize);
      RequiredBlocks(|payload|, blockSize);
      LenMul(required, blockSize);
      alloc := required * blockSize;
      var run, marked := TakeRun(required, oldFork, files, k);
      if run.None? {
        return false, alloc;
      }
      FirstIsFree(v, Bitmap(v, img), run.value, required);
      var newFork := Fork(|payload|, [Extent(run.value, required)]);
      OneExtent(run.value, required);
      var oldBlocks := AllocatedBlocks(oldFork.extents);
      FileAllocation(v, freeBlocks, img, files, k);
      MovingFacts(v, freeBlocks, img, files, k, payload, run.value, marked);
      var free := freeBlocks + oldBlocks - required;
      BitmapKeepsCatalog(v, freeBlocks, img, files, free, marked);
      RecordFromNode(v, cat, files[k], |payload|, newFork.extents);
      WriteAllocationBitmapAndHeader(marked, free);
      WriteDataAndRecord(newFork, nodeId, node, forkOff, payload);
      ReplaceMoved(v, old(freeBlocks), img, files, k, payload, run.value, marked);
      AllocatedBytes(v, old(freeBlocks), img, freeBlocks, image, files, k, payload);
      moved := true;
    }

    /** Replace the contents of a file, moving it to a free run when it must grow. */
    method ReplaceFile(path: seq<byte>, payload: seq<byte>, allowGrow: bool, ghost files: seq<FileLoc>)
      returns (r: Outcome, ghost k: nat)
      requires WellFormed(Vol(), freeBlocks, image, files)
      modifies this`image, this`freeBlocks
      ensures r.Allocated? <==> CanReplace(Vol(), old(image), path, |payload|, allowGrow)
      ensures r.Raise? ==> image == old(image) && freeBlocks == old(freeBlocks)
      ensures r.Allocated? ==>
                && var f := FindFileSpec(CatView(Vol(), old(image)), nodeSize, firstLeaf, lastLeaf, path);
                && f.File? && k < |files| && files[k] == FileLoc(f.node, f.dataOff + DATA_FORK_OFF)
                && Replaced(Vol(), old(freeBlocks), old(image), freeBlocks, image, files, k, payload)
                && r.bytes == |FileBytes(Vol(), freeBlocks, image, files, k)|
    {
      hide ScanFrom, FindFileSpec, View, Blocks, Len, Patch, ForkRecord, ForkAt, Clear, NoDup, Apart, CeilDiv,
           WindowClear,
           Finished, Replaced, IsUsed, Be32, InVolume, Node, RecordFor, HeaderOk, Ownership, HitsListed, FreeSet,
           FreeRunAt, RecordBytes, FileBytes;
      ghost var v, img, cat := Vol(), image, CatView(Vol(), image);
      k := 0;
      var f, node := FindFile(path);
      if f.Failed? {
        return Raise(f.e), k;
      }
      var forkOff := f.dataOff + DATA_FORK_OFF;
      if forkOff + FORK_SIZE > |node| {
        return Raise(StructError), k;
      }
      k := FoundListed(v, freeBlocks, img, files, path);
      var fork := ForkFrom(node, forkOff);
      ForkPacks(node, forkOff);
      BlockSize32(v, freeBlocks, Header(img));
      var oldBlocks := AllocatedBlocks(fork.extents);
      LenMul(oldBlocks, blockSize);
      var alloc := oldBlocks * blockSize;
      if |payload| <= alloc {
        FileApart(v, freeBlocks, img, files, k);
        SystemOwners(v, freeBlocks, img, files);
        RecordInCatalog(v, cat, files[k]);
        SizeFits(v, img, Blocks(fork.extents), |payload|);
        RecordPacks(v, cat, files[k], node[forkOff + 8..forkOff + 12], |payload|, CeilDiv(|payload|, blockSize),
                    fork.extents);
        RecordFromNode(v, cat, files[k], |payload|, fork.extents);
        WriteDataAndRecord(fork, f.node, node, forkOff, payload);
        ReplaceInPlace(v, freeBlocks, img, files, k, payload,
          ForkRecord(node[forkOff + 8..forkOff + 12], |payload|, CeilDiv(|payload|, blockSize), fork.extents));
        AllocatedBytes(v, freeBlocks, img, freeBlocks, image, files, k, payload);
        FileAllocation(v, freeBlocks, img, files, k);
        return Allocated(alloc), k;
      }
      if !allowGrow {
        return Raise(RuntimeError), k;
      }
      var moved, newAlloc := GrowFile(f.node, node, forkOff, fork, payload, files, k);
      if !moved {
        return Raise(RuntimeError), k;
      }
      return Allocated(newAlloc), k;
    }
  }
}
