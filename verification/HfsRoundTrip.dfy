/** What the host tool writes is what the booter reads. */
module HfsRoundTrip {
  import opened Bytes
  import opened Blocking
  import opened Machine
  import opened HfsExtents
  import opened HfsBitmap
  import opened HfsForkRecord
  import opened HfsCatalog
  import opened HfsVolume
  import opened HfsReplace
  import opened HfsImage
  import opened HfsBooter
  import opened HfsBootCatalog
  import opened HfsBoot

  /** The number of catalog nodes the booter assumes. */
  function BootTotal(v: Volume, cat: seq<byte>): nat
    requires HEADER_NODE <= |cat| && 0 < v.nodeSize
  {
    if Be32(cat, TOTAL_NODES_OFF) == 0 then v.cat.size % TWO32 / v.nodeSize else Be32(cat, TOTAL_NODES_OFF)
  }

  /** What the mount and the node reads need of a volume beyond what the host needs. */
  ghost predicate BootGeometry(v: Volume, cat: seq<byte>) {
    && HEADER_NODE <= v.blockSize <= NODE_BUF && v.blockSize % SECTOR == 0
    && Len(v.totalBlocks, v.blockSize / SECTOR) <= TWO32
    && LeafInfo(v, cat) && 12 <= v.nodeSize <= NODE_BUF && HEADER_NODE <= v.cat.size
    && 0 < Be32(cat, FIRST_LEAF_OFF) <= Be32(cat, LAST_LEAF_OFF) < BootTotal(v, cat)
    && Len(v.lastLeaf + 1, v.nodeSize) <= v.cat.size && Len(v.lastLeaf + 1, v.nodeSize) <= TWO32
    && (forall n: nat :: v.firstLeaf <= n <= v.lastLeaf ==> OneBlock(v.blockSize, v.nodeSize, n))
  }

  /** And for every file to be found: names both read alike. `longest` bounds the path components. */
  ghost predicate Bootable(v: Volume, cat: seq<byte>, longest: nat) {
    BootGeometry(v, cat) && LeavesOk(cat, v.nodeSize, v.firstLeaf, v.lastLeaf, longest)
  }

  // ---------- a replacement keeps a volume bootable ----------

  lemma LeafOkPatched(node: seq<byte>, off: nat, w: seq<byte>, longest: nat)
    requires 12 <= |node| && off + |w| <= |node| && IsLeaf(node) && Clear(node, off, off + |w|) && LeafOk(node, longest)
    ensures LeafOk(Patch(node, off, w), longest)
  {
    hide Be16, AsciiName;
    var node' := Patch(node, off, w);
    HeaderOutside(node, off, w);
    forall r | 0 <= r < Records(node) && RecOff(node', r) + 8 <= |node|
      ensures NameOk(node', RecOff(node', r), longest)
    {
      SlotOutside(node, off, w, r);
      var o := RecOff(node, r);
      assert NameOk(node, o, longest);
      assert SlotClear(node, r, off, off + |w|);
      if KeyInNode(node, o) {
        var m := Min(NameLen(node, o), NAME_CAP);
        forall i | 0 <= i < m ensures Be16(node', o + 8 + 2 * i) != 0 {
          FieldsOutside(node, off, w, o + 8 + 2 * i);
        }
      }
    }
  }

  lemma BootableKept(v: Volume, cat: seq<byte>, cat': seq<byte>, f: FileLoc, longest: nat)
    requires Bootable(v, cat, longest) && OnlyRecordMoved(v, cat, cat', f) && 512 <= v.nodeSize
    requires WindowClear(cat, v.nodeSize, f.node, f.off, FORK_SIZE)
    ensures Bootable(v, cat', longest)
  {
    hide Clear, LeafOk, Patch, Be32, Be16, OneBlock, Node, Records;
    var w: seq<byte> :| |w| == FORK_SIZE && cat' == Patch(cat, RecordAt(v, f), w);
    LenMono(1, f.node, v.nodeSize);
    HeaderFieldsKept(v, cat, f, w);
    forall n | v.firstLeaf <= n <= v.lastLeaf && Len(n + 1, v.nodeSize) <= |cat'| && IsLeaf(Node(cat', v.nodeSize, n))
      ensures LeafOk(Node(cat', v.nodeSize, n), longest)
    {
      NodeOfPatch(cat, v.nodeSize, f.node, f.off, w, n);
      if n == f.node {
        HeaderOutside(Node(cat, v.nodeSize, n), f.off, w);
        LeafOkPatched(Node(cat, v.nodeSize, n), f.off, w, longest);
      }
    }
  }

  lemma HeaderFieldsKept(v: Volume, cat: seq<byte>, f: FileLoc, w: seq<byte>)
    requires 512 <= v.nodeSize && 0 < f.node && RecordAt(v, f) + |w| <= |cat| && HEADER_NODE <= |cat|
    ensures forall o :: o in {FIRST_LEAF_OFF, LAST_LEAF_OFF, TOTAL_NODES_OFF} ==>
              Be32(Patch(cat, RecordAt(v, f), w), o) == Be32(cat, o)
    ensures Be16(Patch(cat, RecordAt(v, f), w), NODE_SIZE_OFF) == Be16(cat, NODE_SIZE_OFF)
  {
    hide Be32, Be16, Patch;
    LenMono(1, f.node, v.nodeSize);
    FieldsOutside(cat, RecordAt(v, f), w, FIRST_LEAF_OFF);
    FieldsOutside(cat, RecordAt(v, f), w, LAST_LEAF_OFF);
    FieldsOutside(cat, RecordAt(v, f), w, TOTAL_NODES_OFF);
    FieldsOutside(cat, RecordAt(v, f), w, NODE_SIZE_OFF);
  }

  // ---------- the booter on a host volume ----------

  lemma {:induction false} VolumeSectors(b: nat, total: nat, spb: nat)
    requires b < total && 0 < spb && Len(total, spb) <= TWO32
    ensures Len(b, spb) < TWO32 && Len(b + 1, spb) <= Len(total, spb)
  {
    LenMono(b + 1, total, spb);
  }

  /** Blocks of the volume are blocks the booter can read. */
  lemma BlocksBoot(v: Volume, img: seq<byte>, blocks: seq<nat>)
    requires Geometry(v, img) && InVolume(v, blocks) && Len(v.totalBlocks, v.blockSize / SECTOR) <= TWO32
    ensures InImage(img, v.blockSize, blocks) && OnDisk(Disk(img, {}), v.blockSize, blocks)
    ensures Seen(Disk(img, {}), v.blockSize, blocks) == View(img, v.blockSize, blocks)
    ensures forall b :: b in blocks ==> BlockReadable(Disk(img, {}), v.blockSize, b)
  {
    hide View, Seen;
    InVolumeInImage(v, img, blocks);
    var spb := v.blockSize / SECTOR;
    forall b | b in blocks ensures Len(b, spb) < TWO32 && BlockReadable(Disk(img, {}), v.blockSize, b) {
      VolumeSectors(b, v.totalBlocks, spb);
      BlockSectors(b + 1, v.blockSize);
    }
    SeenFits(Disk(img, {}), v.blockSize, blocks);
  }

  lemma ReadableRange(d: Disk, bs: nat, blocks: seq<nat>, n: nat)
    requires 0 < bs && n <= Len(|blocks|, bs) && forall b :: b in blocks ==> BlockReadable(d, bs, b)
    ensures forall i :: 0 <= i < n ==> ByteReadable(d, bs, blocks, i)
  {
    hide Len, BlockOf, BlockReadable;
    forall i | 0 <= i < n ensures ByteReadable(d, bs, blocks, i) {
      Inside(i, |blocks|, bs);
      assert blocks[BlockOf(i, bs)] in blocks;
    }
  }

  /** The fork the booter takes from a record has the blocks and the size the host sees. */
  lemma SameForkBothSides(b: seq<byte>, o: nat)
    requires o + FORK_SIZE <= |b|
    ensures Blocks(ForkOf(b, o).ext) == Blocks(ForkAt(b, o).extents) && ForkOf(b, o).size == ForkAt(b, o).size
  {
    hide RawExtents, Be64, Blocks, NonEmpty;
    NonEmptyBlocks(RawExtents(b, o));
  }

  lemma HostHeader(v: Volume, free: nat, img: seq<byte>, files: seq<FileLoc>)
    requires WellFormed(v, free, img, files)
    ensures Be32(Header(img), 40) == v.blockSize && GoodSignature(Header(img))
    ensures Blocks(ForkOf(Header(img), CATALOG_FILE_OFF).ext) == CatBlocks(v)
    ensures ForkOf(Header(img), CATALOG_FILE_OFF).size == v.cat.size
  {
    hide Ownership, HitsListed, Locs, FreeSet, ForkAt, ForkOf, Blocks, Be32;
    SameForkBothSides(Header(img), CATALOG_FILE_OFF);
  }

  lemma CatalogReady(v: Volume, free: nat, img: seq<byte>, files: seq<FileLoc>, fk: ForkMeta)
    requires WellFormed(v, free, img, files) && BootGeometry(v, CatView(v, img))
    requires Blocks(fk.ext) == CatBlocks(v) && fk.size == v.cat.size
    ensures HeaderRead(Disk(img, {}), v.blockSize, fk) && HeaderBase(v.blockSize, fk) == 0
    ensures CatalogClean(Disk(img, {}), v.blockSize, fk, v.nodeSize, v.firstLeaf, v.lastLeaf)
    ensures Seen(Disk(img, {}), v.blockSize, Blocks(fk.ext)) == CatView(v, img)
  {
    hide Ownership, HitsListed, Locs, FreeSet, HeaderOk, LeavesOk, Blocks, Len, OneBlock, BlockReadable, OnDisk, Seen,
         InImage, View, Be32, Be16;
    BlocksBoot(v, img, CatBlocks(v));
    ReadableRange(Disk(img, {}), v.blockSize, CatBlocks(v), HEADER_NODE);
    BaseZero(v.blockSize, fk);
  }

  /** The node size and leaf range the booter settles on are those of the host. */
  lemma MountedFields(v: Volume, cat: seq<byte>, ns: nat)
    requires BootGeometry(v, cat)
    requires ns == MountedSize(Be16(cat, NODE_SIZE_OFF))
    ensures ns == v.nodeSize && Effective(ns) == v.nodeSize && Effective(v.blockSize) == v.blockSize
    ensures BootRange(Be32(cat, FIRST_LEAF_OFF), Be32(cat, LAST_LEAF_OFF), Be32(cat, TOTAL_NODES_OFF), v.cat.size,
                      v.nodeSize)
         == (v.firstLeaf, v.lastLeaf)
  {
    hide Be32, Be16, Len, LeavesOk, OneBlock;
  }

  /** Reading the file's fork succeeds and gives the file's bytes. */
  lemma FileReadable(v: Volume, free: nat, img: seq<byte>, files: seq<FileLoc>, k: nat, path: seq<byte>, buf: seq<byte>)
    requires WellFormed(v, free, img, files) && k < |files| && files[k] in files
    requires v.blockSize <= NODE_BUF && Len(v.totalBlocks, v.blockSize / SECTOR) <= TWO32
    requires 0 < FileFork(v, CatView(v, img), files[k]).size <= |FileBytes(v, free, img, files, k)|
    ensures var f := files[k];
            && Len(f.node + 1, v.nodeSize) <= |CatView(v, img)| && f.off + FORK_SIZE <= v.nodeSize
            && var fk := ForkOf(Node(CatView(v, img), v.nodeSize, f.node), f.off);
               && fk.size == FileFork(v, CatView(v, img), f).size
               && ReadOk(Disk(img, {}), v.blockSize, fk, 0, fk.size)
               && (Holds(buf, Disk(img, {}), v.blockSize, Blocks(fk.ext), 0, fk.size) ==>
                     fk.size <= |buf| && buf[..fk.size] == FileBytes(v, free, img, files, k)[..fk.size])
  {
    hide Ownership, HitsListed, FreeSet, HeaderOk, Blocks, Len, Clear, ScanFrom, View, Be64, RawExtents, BlockReadable,
         InImage, BlockOf, Within, Seen, OnDisk;
    var cat, f := CatView(v, img), files[k];
    var node := Node(cat, v.nodeSize, f.node);
    LenNext(f.node, v.nodeSize);
    SubSlice(cat, Len(f.node, v.nodeSize), node, f.off, FORK_SIZE);
    SameFork(node, f.off, cat, RecordAt(v, f));
    SameForkBothSides(node, f.off);
    var fk, blocks := ForkOf(node, f.off), FileBlocks(v, cat, f);
    FileInVolume(v, cat, files, Bitmap(v, img), k);
    BlocksBoot(v, img, blocks);
    ReadableRange(Disk(img, {}), v.blockSize, blocks, fk.size);
    if Holds(buf, Disk(img, {}), v.blockSize, blocks, 0, fk.size) {
      HoldsView(buf, Disk(img, {}), v.blockSize, blocks, 0, fk.size);
    }
  }

  lemma GeometryRange(v: Volume, cat: seq<byte>)
    requires BootGeometry(v, cat)
    ensures Len(v.firstLeaf + 1, v.nodeSize) <= v.cat.size && v.blockSize <= NODE_BUF
    ensures Len(v.totalBlocks, v.blockSize / SECTOR) <= TWO32
  {
    LenMono(v.firstLeaf + 1, v.lastLeaf + 1, v.nodeSize);
  }

  /** The booter, started on a volume where its own lookup leads to a listed file, reads that file. */
  method BootAt(img: seq<byte>, path: seq<byte>, dst: array<byte>, cap: nat,
                ghost v: Volume, ghost free: nat, ghost files: seq<FileLoc>, ghost k: nat, ghost n: nat, ghost d: nat)
    returns (ok: bool, size: nat)
    requires WellFormed(v, free, img, files) && BootGeometry(v, CatView(v, img)) && k < |files| && files[k] in files
    requires 0 !in path && cap <= dst.Length && files[k] == FileLoc(n, d + DATA_FORK_OFF)
    requires BootFindParts(CatView(v, img), v.cat.size, v.nodeSize, v.firstLeaf, v.lastLeaf, Parts(path), ROOT_ID)
          == BootFile(n, d)
    requires 0 < FileFork(v, CatView(v, img), files[k]).size <= cap
    requires FileFork(v, CatView(v, img), files[k]).size <= |FileBytes(v, free, img, files, k)|
    modifies dst
    ensures ok && size == FileFork(v, CatView(v, img), files[k]).size
    ensures dst[..size] == FileBytes(v, free, img, files, k)[..size]
  {
    hide Ownership, HitsListed, FreeSet, HeaderOk, LeavesOk, Blocks, Len, Clear, ScanFrom, BootFindParts, View,
         CatalogClean, LeafInfo,
         HeaderRead, HeaderBase, Be32, Be16, RawExtents, Be64, OnDisk, BlockReadable, ForkAt, InImage, Holds, Seen,
             ReadOk, CompLen, GoodSignature, BootGeometry;
    ghost var cat := CatView(v, img);
    var booter := new Booter(Disk(img, {}));
    HostHeader(v, free, img, files);
    var mounted := booter.Mount();
    GeometryRange(v, cat);
    CatalogReady(v, free, img, files, booter.catalog);
    MountedFields(v, cat, booter.nodeSize);
    ok, size := booter.ReadFile(path, dst, cap);
    FileReadable(v, free, img, files, k, path, dst[..]);
  }

  /** On a bootable volume that is every file the host finds. */
  method BootFrom(img: seq<byte>, path: seq<byte>, dst: array<byte>, cap: nat,
                  ghost v: Volume, ghost free: nat, ghost files: seq<FileLoc>, ghost k: nat, ghost longest: nat)
    returns (ok: bool, size: nat)
    requires WellFormed(v, free, img, files) && Bootable(v, CatView(v, img), longest) && k < |files|
    requires files[k] in files
    requires PartsOk(Parts(path), longest) && 0 !in path && cap <= dst.Length
    requires var f := FindFileSpec(CatView(v, img), v.nodeSize, v.firstLeaf, v.lastLeaf, path);
             && f.File? && f.dataOff + DATA_FORK_OFF + FORK_SIZE <= v.nodeSize
             && files[k] == FileLoc(f.node, f.dataOff + DATA_FORK_OFF)
    requires 0 < FileFork(v, CatView(v, img), files[k]).size <= cap
    requires FileFork(v, CatView(v, img), files[k]).size <= |FileBytes(v, free, img, files, k)|
    modifies dst
    ensures ok && size == FileFork(v, CatView(v, img), files[k]).size
    ensures dst[..size] == FileBytes(v, free, img, files, k)[..size]
  {
    hide Ownership, HitsListed, FreeSet, HeaderOk, Locs, FileFork, FileBytes, CatView, LeavesOk, Len, ScanFrom,
         BootFindParts, FindParts, PartsOk, LeafInfo, Be32, Parts;
    ghost var cat := CatView(v, img);
    ghost var f := FindFileSpec(cat, v.nodeSize, v.firstLeaf, v.lastLeaf, path);
    FindsAgree(cat, v.cat.size, v.nodeSize, v.firstLeaf, v.lastLeaf, Parts(path), ROOT_ID, longest);
    ok, size := BootAt(img, path, dst, cap, v, free, files, k, f.node, f.dataOff);
  }

  /** Replace a file on the host, then boot from the image: the booter gets exactly the payload. */
  method HostWritesBooterReads(host: HFSPlusImage, path: seq<byte>, payload: seq<byte>, allowGrow: bool,
                               dst: array<byte>, cap: nat, ghost files: seq<FileLoc>, ghost longest: nat)
    returns (written: Outcome, ok: bool, size: nat)
    requires WellFormed(host.Vol(), host.freeBlocks, host.image, files)
    requires Bootable(host.Vol(), CatView(host.Vol(), host.image), longest)
    requires PartsOk(Parts(path), longest) && 0 !in path && 0 < |payload| <= cap <= dst.Length
    modifies host`image, host`freeBlocks, dst
    ensures written.Allocated? <==> CanReplace(host.Vol(), old(host.image), path, |payload|, allowGrow)
    ensures written.Raise? ==> host.image == old(host.image)
    ensures written.Allocated? ==> ok && size == |payload| && dst[..size] == payload
  {
    hide Ownership, HitsListed, FreeSet, HeaderOk, LeavesOk, Blocks, Len, Clear, ScanFrom, FindFileSpec, View,
         LeafInfo, CanReplace,
         Be32, Be16, ForkAt, PartsOk, WindowClear, Bootable, OnlyRecordMoved, SamePaths, FileBytes;
    ghost var v, img, free := host.Vol(), host.image, host.freeBlocks;
    ghost var k;
    written, k := host.ReplaceFile(path, payload, allowGrow, files);
    ok, size := false, 0;
    if written.Allocated? {
      ghost var cat, cat' := CatView(v, img), CatView(v, host.image);
      WindowOf(v, cat, files, k);
      BootableKept(v, cat, cat', files[k], longest);
      PathOf(v, cat, cat', path);
      PayloadSize(v, host.freeBlocks, host.image, files, k, payload);
      ok, size := BootFrom(host.image, path, dst, cap, v, host.freeBlocks, files, k, longest);
    }
  }

  lemma WindowOf(v: Volume, cat: seq<byte>, files: seq<FileLoc>, k: nat)
    requires Locs(v, cat, files) && k < |files|
    ensures files[k] in files && WindowClear(cat, v.nodeSize, files[k].node, files[k].off, FORK_SIZE)
    ensures files[k].off + FORK_SIZE <= v.nodeSize
  {
    hide Clear;
    assert files[k] in files;
  }

  lemma PathOf(v: Volume, cat: seq<byte>, cat': seq<byte>, path: seq<byte>)
    requires 0 < v.nodeSize && SamePaths(v, cat, cat')
    ensures FindFileSpec(cat', v.nodeSize, v.firstLeaf, v.lastLeaf, path)
        == FindFileSpec(cat, v.nodeSize, v.firstLeaf, v.lastLeaf, path)
  {
  }

  lemma PayloadSize(v: Volume, free: nat, img: seq<byte>, files: seq<FileLoc>, k: nat, payload: seq<byte>)
    requires WellFormed(v, free, img, files) && k < |files| && payload <= FileBytes(v, free, img, files, k)
    ensures |payload| <= |FileBytes(v, free, img, files, k)|
    ensures FileBytes(v, free, img, files, k)[..|payload|] == payload
  {
    hide WellFormed, FileBytes;
  }
}
