/** The tool that adds a file to the root folder of a mounted image. */
module HfsCreateRoot {
  import opened Bytes
  import opened Blocking
  import opened HfsExtents
  import opened HfsBitmap
  import opened HfsForkRecord
  import opened HfsCatalog
  import opened HfsVolume
  import opened HfsReplace
  import opened HfsImage
  import opened HfsCreate
  import opened HfsCreateVolume
  import opened HfsCreateFile
  import opened HfsCreateTouch

  // ---------- the name ----------

  function StripLeft(p: seq<byte>): seq<byte> {
    if p != [] && p[0] == SLASH then StripLeft(p[1..]) else p
  }

  function StripRight(p: seq<byte>): seq<byte> {
    if p != [] && p[|p| - 1] == SLASH then StripRight(p[..|p| - 1]) else p
  }

  lemma {:induction false} PartsTrailing(p: seq<byte>)
    ensures Parts(p + [SLASH]) == Parts(p)
    decreases |p|
  {
    var q := p + [SLASH];
    if p == [] {
      assert q[1..] == [];
    } else if p[0] == SLASH {
      assert q[1..] == p[1..] + [SLASH];
      PartsTrailing(p[1..]);
    } else {
      var k := CompLen(p);
      CompLenTrailing(p);
      assert q[..k] == p[..k] && q[k..] == p[k..] + [SLASH];
      PartsTrailing(p[k..]);
    }
  }

  lemma {:induction false} CompLenTrailing(p: seq<byte>)
    ensures CompLen(p + [SLASH]) == CompLen(p)
  {
    if p != [] && p[0] != SLASH {
      assert (p + [SLASH])[1..] == p[1..] + [SLASH];
      CompLenTrailing(p[1..]);
    }
  }

  lemma {:induction false} StripLeftParts(p: seq<byte>)
    ensures Parts(StripLeft(p)) == Parts(p)
    ensures StripLeft(p) != [] ==> StripLeft(p)[0] != SLASH
  {
    if p != [] && p[0] == SLASH {
      StripLeftParts(p[1..]);
    }
  }

  lemma {:induction false} StripRightParts(p: seq<byte>)
    ensures Parts(StripRight(p)) == Parts(p)
    ensures StripRight(p) <= p && (StripRight(p) != [] ==> StripRight(p)[|StripRight(p)| - 1] != SLASH)
  {
    if p != [] && p[|p| - 1] == SLASH {
      StripRightParts(p[..|p| - 1]);
      PartsTrailing(p[..|p| - 1]);
      assert p[..|p| - 1] + [SLASH] == p;
    }
  }

  lemma {:induction false} PartsOfTail(p: seq<byte>)
    requires p != [] && p[|p| - 1] != SLASH
    ensures Parts(p) != []
    decreases |p|
  {
    if p[0] == SLASH {
      PartsOfTail(p[1..]);
    }
  }

  lemma {:induction false} NoSlash(p: seq<byte>)
    ensures SLASH !in p ==> CompLen(p) == |p|
  {
    if p != [] && p[0] != SLASH {
      NoSlash(p[1..]);
    }
  }

  lemma OnePart(name: seq<byte>)
    requires name != [] && name[0] != SLASH && name[|name| - 1] != SLASH
    ensures SLASH !in name <==> |Parts(name)| == 1
    ensures SLASH !in name ==> Parts(name) == [name]
  {
    hide CompLen;
    var k := CompLen(name);
    NoSlash(name);
    assert Parts(name) == [name[..k]] + Parts(name[k..]);
    if k < |name| {
      PartsOfTail(name[k..]);
      assert name[k] in name;
    } else {
      assert name[..k] == name && name[k..] == [];
    }
  }

  /** `path.strip("/")` is non-empty and holds no slash exactly when the path has one component. */
  lemma StripParts(path: seq<byte>)
    ensures var name := StripRight(StripLeft(path));
            && (name != [] && SLASH !in name <==> |Parts(path)| == 1)
            && (|Parts(path)| == 1 ==> Parts(path) == [name] && Parts([SLASH] + name) == [name])
  {
    hide CompLen, StripLeft, StripRight;
    var l := StripLeft(path);
    var name := StripRight(l);
    StripLeftParts(path);
    StripRightParts(l);
    assert ([SLASH] + name)[1..] == name;
    if name != [] {
      assert name[0] != SLASH;
      OnePart(name);
    }
  }

  // ---------- when a file can be created ----------

  function BlocksFor(v: Volume, size: nat): nat
    requires 0 < v.blockSize
  {
    CeilDiv(size, v.blockSize)
  }

  /** A run is taken: one component, nothing but a plain lookup failure, and a free run (of one block for an empty
      file). */
  ghost predicate CanTake(v: Volume, img: seq<byte>, path: seq<byte>, size: nat)
    requires Geometry(v, img) && Forks(v)
  {
    && |Parts(path)| == 1
    && FindFileSpec(CatView(v, img), v.nodeSize, v.firstLeaf, v.lastLeaf, path) == Failed(RuntimeError)
    && RunExists(v, Bitmap(v, img), Wanted(v, size))
  }

  /** The free run looked for: at least one block, even for an empty file. */
  function Wanted(v: Volume, size: nat): nat
    requires 0 < v.blockSize
  {
    if size == 0 then 1 else BlocksFor(v, size)
  }

  predicate FirstLeafFound(v: Volume, cat: seq<byte>) {
    12 <= v.nodeSize && Len(v.firstLeaf + 1, v.nodeSize) <= |cat| && IsLeaf(Node(cat, v.nodeSize, v.firstLeaf))
  }

  ghost predicate CanCreate(v: Volume, img: seq<byte>, path: seq<byte>, size: nat)
    requires Geometry(v, img) && Forks(v)
  {
    CanTake(v, img, path, size) && CountersFit(Header(img)) && RecordRoom(v, CatView(v, img), Parts(path)[0])
  }

  /** The first leaf is one with a readable table, the name packs, and the record fits between the free offset and the
      longer table. */
  ghost predicate RecordRoom(v: Volume, cat: seq<byte>, name: seq<byte>) {
    FirstLeafFound(v, cat) && NodeRoom(Node(cat, v.nodeSize, v.firstLeaf), name)
  }

  predicate NodeRoom(node: seq<byte>, name: seq<byte>)
    requires 12 <= |node|
  {
    && TableRead(node) && AsciiOnly(name) && 6 + 2 * |name| < TWO16
    && SlotInNode(node, 0) && 0 <= Gap(node, 8 + 2 * |name| + RECORD_DATA)
  }

  /** What creation expects of a first leaf that is one. */
  ghost predicate LeafExpected(v: Volume, cat: seq<byte>, files: seq<FileLoc>) {
    FirstLeafFound(v, cat) ==> LeafReady(v, cat, files)
  }

  ghost predicate RecordStorable(v: Volume, cat: seq<byte>, files: seq<FileLoc>, name: seq<byte>) {
    RecordRoom(v, cat, name) && LeafReady(v, cat, files)
  }

  datatype Creation = Created(start: nat, id: nat) | NotCreated(e: PyError)

  /** Find a free run, mark it, write the bitmap and the free count. */
  method MarkRun(hfs: HFSPlusImage, n: nat, ghost size: nat, ghost files: seq<FileLoc>) returns (run: Option<nat>)
    requires WellFormed(hfs.Vol(), hfs.freeBlocks, hfs.image, files) && n == BlocksFor(hfs.Vol(), size)
    modifies hfs`image, hfs`freeBlocks
    ensures run.Some? <==> RunExists(hfs.Vol(), Bitmap(hfs.Vol(), old(hfs.image)), Wanted(hfs.Vol(), size))
    ensures run.None? ==> hfs.image == old(hfs.image) && hfs.freeBlocks == old(hfs.freeBlocks)
    ensures run.Some? ==>
              && run.value + n <= hfs.totalBlocks && hfs.freeBlocks == old(hfs.freeBlocks) - n
              && Staged(hfs.Vol(), old(hfs.freeBlocks), old(hfs.image), hfs.freeBlocks, hfs.image, files,
                        Run(run.value, n))
              && FirstRun(hfs.Vol(), Bitmap(hfs.Vol(), old(hfs.image)), run.value, Wanted(hfs.Vol(), size))
              && Touched(hfs.Vol(), old(hfs.image), hfs.image, Run(run.value, n))
              && FreeCounted(Header(old(hfs.image)), Header(hfs.image), hfs.freeBlocks)
  {
    hide ScanFrom, View, Blocks, Len, Clear, NoDup, Apart, IsUsed, HeaderOk, Header, Ownership, HitsListed, FreeSet,
         ForkAt, CeilDiv, BitmapWritten, Run, Staged, Locs, InVolume, AllClear, RunExists, FirstRun, Touched,
         FreeCounted;
    ghost var v, img, free := hfs.Vol(), hfs.image, hfs.freeBlocks;
    RequiredBlocks(size, hfs.blockSize);
    CeilDivBlocks(0, hfs.blockSize, 0);
    var bitmap := hfs.ReadAllocationBitmap();
    var past;
    run, past := FindFreeRun(bitmap, hfs.totalBlocks, n);
    RunFound(v, bitmap, run, n, size);
    if run.Some? {
      var start := run.value;
      OneExtent(start, n);
      RunFacts(v, bitmap, start, n);
      var marked := MarkBlocks(bitmap, [Extent(start, n)], true);
      StageMark(v, free, img, files, Run(start, n), marked);
      TouchedBitmap(v, free, img, files, free - n, marked, Run(start, n));
      hfs.WriteAllocationBitmapAndHeader(marked, hfs.freeBlocks - n);
    }
  }

  /** The run taken and filled with the payload and its padding. */
  method WriteRun(hfs: HFSPlusImage, payload: seq<byte>, ghost files: seq<FileLoc>) returns (run: Option<nat>)
    requires WellFormed(hfs.Vol(), hfs.freeBlocks, hfs.image, files)
    modifies hfs`image, hfs`freeBlocks
    ensures run.Some? <==> RunExists(hfs.Vol(), Bitmap(hfs.Vol(), old(hfs.image)), Wanted(hfs.Vol(), |payload|))
    ensures run.None? ==> hfs.image == old(hfs.image) && hfs.freeBlocks == old(hfs.freeBlocks)
    ensures run.Some? ==>
              && var v, n := hfs.Vol(), BlocksFor(hfs.Vol(), |payload|);
              && |payload| <= Len(n, v.blockSize) && run.value + n <= v.totalBlocks
              && hfs.freeBlocks == old(hfs.freeBlocks) - n
              && Staged(v, old(hfs.freeBlocks), old(hfs.image), hfs.freeBlocks, hfs.image, files, Run(run.value, n))
              && ViewOf(v, hfs.image, Run(run.value, n)) == payload + Zeros(Len(n, v.blockSize) - |payload|)
              && FirstRun(v, Bitmap(v, old(hfs.image)), run.value, Wanted(v, |payload|))
              && Touched(v, old(hfs.image), hfs.image, Run(run.value, n))
              && FreeCounted(Header(old(hfs.image)), Header(hfs.image), hfs.freeBlocks)
  {
    hide ScanFrom, View, Blocks, Len, HeaderOk, Header, Ownership, HitsListed, FreeSet, CeilDiv, Patch, Run, Locs,
         Zeros, RunExists, FilesSame, OwnersApartFrom, RunOwned, InVolume, RunWritten, Be32, FirstRun, Touched,
         FreeCounted, SameOutside;
    ghost var v, img, free := hfs.Vol(), hfs.image, hfs.freeBlocks;
    var n := CeilDiv(|payload|, hfs.blockSize);
    RequiredBlocks(|payload|, hfs.blockSize);
    run := MarkRun(hfs, n, |payload|, files);
    if run.Some? {
      StageData(v, free, img, hfs.freeBlocks, hfs.image, files, run.value, n, payload,
                Len(n, hfs.blockSize) - |payload|);
      var filled := FillRun(hfs.image, hfs.blockSize, run.value, payload);
      TouchedMore(v, img, hfs.image, filled, Run(run.value, n), Run(run.value, n));
      hfs.image := filled;
    }
  }

  /** Payload and padding written straight at the first block of the run. */
  method FillRun(image: seq<byte>, bs: nat, start: nat, payload: seq<byte>) returns (r: seq<byte>)
    requires 0 < bs && |payload| <= Len(CeilDiv(|payload|, bs), bs)
    requires Len(start, bs) + Len(CeilDiv(|payload|, bs), bs) <= |image|
    ensures r == RunWritten(image, bs, start, payload, Len(CeilDiv(|payload|, bs), bs) - |payload|)
  {
    hide Patch, Zeros, CeilDiv, Len;
    var n := CeilDiv(|payload|, bs);
    LenMul(start, bs);
    LenMul(n, bs);
    PaddingSmall(|payload|, bs);
    r := Patch(image, start * bs, payload);
    var padding := n * bs - |payload|;
    if padding != 0 {
      r := Patch(r, start * bs + |payload|, Zeros(Min(padding, bs)));
    } else {
      NoPatch(r, Len(start, bs) + |payload|);
    }
  }

  lemma RunFound(v: Volume, bitmap: seq<byte>, run: Option<nat>, blocks: nat, size: nat)
    requires v.totalBlocks <= 8 * |bitmap| && (blocks == 0 <==> size == 0)
    requires var n := if blocks == 0 then 1 else blocks;
             && (run.Some? ==> run.value + n <= v.totalBlocks && AllClear(bitmap, run.value, n)
                               && forall s: nat :: s < run.value ==> !AllClear(bitmap, s, n))
             && (run.None? ==> forall s: nat :: s + n <= v.totalBlocks ==> !AllClear(bitmap, s, n))
    ensures run.Some? <==> RunExists(v, bitmap, if size == 0 then 1 else blocks)
    ensures run.Some? ==> run.value + blocks <= v.totalBlocks && AllClear(bitmap, run.value, blocks)
                          && FirstRun(v, bitmap, run.value, if size == 0 then 1 else blocks)
  {
    hide IsUsed;
    if run.Some? {
      assert FreeRunAt(v, bitmap, run.value, if size == 0 then 1 else blocks);
    }
  }

  /** Raise the file count and the next catalog id in the volume header. */
  method WriteCounters(hfs: HFSPlusImage, ghost free: nat, ghost img: seq<byte>, ghost files: seq<FileLoc>,
                       ghost nb: seq<nat>)
    returns (id: Option<nat>)
    requires WellFormed(hfs.Vol(), free, img, files)
    requires Staged(hfs.Vol(), free, img, hfs.freeBlocks, hfs.image, files, nb)
    requires Touched(hfs.Vol(), img, hfs.image, nb) && FreeCounted(Header(img), Header(hfs.image), hfs.freeBlocks)
    modifies hfs`image
    ensures Touched(hfs.Vol(), img, hfs.image, nb)
    ensures Staged(hfs.Vol(), free, img, hfs.freeBlocks, hfs.image, files, nb)
    ensures ViewOf(hfs.Vol(), hfs.image, nb) == ViewOf(hfs.Vol(), old(hfs.image), nb)
    ensures id.Some? <==> CountersFit(Header(img))
    ensures id.None? ==> hfs.image == old(hfs.image)
    ensures id.Some? ==> id.value == FileId(Header(img)) < TWO32
                         && FileCounted(Header(img), Header(hfs.image), hfs.freeBlocks, id.value)
  {
    hide HeaderOk, Ownership, HitsListed, FreeSet, Patch, Locs, FilesSame, OwnersApartFrom, RunOwned, InVolume, View,
         Len, Be32, EncBe32, Touched, SameBesideCounters, SameOutside, FileCounted;
    var vh := hfs.image[HDR_OFF..HDR_OFF + HDR_LEN];
    var fileId := Be32(vh, NEXT_ID_OFF);
    if fileId < 20 {
      fileId := 20;
    }
    var count := Be32(vh, FILE_COUNT_OFF) + 1;
    if count >= TWO32 || fileId + 1 >= TWO32 {
      return None;
    }
    CounterPatch(hfs.Vol(), hfs.freeBlocks, vh, count, fileId + 1);
    CountersStored(Header(img), vh, hfs.freeBlocks);
    vh := Patch(Patch(vh, FILE_COUNT_OFF, EncBe32(count)), NEXT_ID_OFF, EncBe32(fileId + 1));
    StageHeader(hfs.Vol(), free, img, hfs.freeBlocks, hfs.image, files, nb, vh);
    WholePatch(hfs.image, HDR_OFF, vh);
    TouchedMore(hfs.Vol(), img, hfs.image, Patch(hfs.image, HDR_OFF, vh), nb, [HdrBlock(hfs.Vol())]);
    hfs.image := Patch(hfs.image, HDR_OFF, vh);
    return Some(fileId);
  }

  // ---------- the record ----------

  function NewFork(size: nat, start: nat, n: nat): Fork {
    Fork(size, NonEmpty([Extent(start, n)]))
  }

  lemma NewForkBlocks(size: nat, start: nat, n: nat)
    ensures Blocks(NewFork(size, start, n).extents) == Run(start, n)
  {
    NonEmptyBlocks([Extent(start, n)]);
    OneExtent(start, n);
  }

  lemma RunLength(start: nat, n: nat)
    ensures |Run(start, n)| == n
  {
  }

  /** Build the record and insert it into the leaf: the errors come in the order the tool meets them. */
  method NewLeaf(node: seq<byte>, name: seq<byte>, id: nat, size: nat, total: nat, start: nat, n: nat)
    returns (e: Option<PyError>, leaf: seq<byte>, rec: seq<byte>)
    requires 12 <= |node| < TWO16 && id < TWO32 && start < TWO32 && n < TWO32 && size < TWO64 && total == n
    ensures e.None? <==> NodeRoom(node, name)
    ensures e.None? ==> && |rec| == 8 + 2 * |name| + RECORD_DATA && IsFileRecord(rec, name, id, NewFork(size, start, n))
                        && leaf == Insertion(node, rec)
  {
    hide Gap, NewOff, Insertion, IsRecordOf, NonEmpty, TableRead, Blocks, Run;
    leaf, rec := [], [];
    var table := ReadTable(node);
    if table.None? {
      return Some(StructError), leaf, rec;
    }
    if exists i :: 0 <= i < |name| && !(0 < name[i] < 128) {
      return Some(RuntimeError), leaf, rec;
    }
    if 6 + 2 * |name| >= TWO16 {
      return Some(StructError), leaf, rec;
    }
    rec := BuildRecord(name, id, size, total, start, n);
    NewForkBlocks(size, start, n);
    RunLength(start, n);
    RecordEven(rec, name, id, NewFork(size, start, n));
    var inserted := InsertRecord(node, table.value, rec);
    if inserted.None? {
      return Some(RuntimeError), leaf, rec;
    }
    return None, inserted.value, rec;
  }

  /** On any first leaf: the image differs in the catalog, and there by the record stored in that leaf. */
  ghost predicate RecordPut(v: Volume, img: seq<byte>, img': seq<byte>, name: seq<byte>, id: nat, fork: Fork)
    requires Geometry(v, img) && Forks(v) && RecordRoom(v, CatView(v, img), name)
  {
    && SameOutside(v.blockSize, img, img', CatBlocks(v)) && Geometry(v, img')
    && exists rec :: |rec| == 8 + 2 * |name| + RECORD_DATA && IsFileRecord(rec, name, id, fork)
        && PutIn(v, img, img', rec)
  }

  ghost predicate PutIn(v: Volume, img: seq<byte>, img': seq<byte>, rec: seq<byte>)
    requires Geometry(v, img) && Forks(v) && Geometry(v, img') && FirstLeafFound(v, CatView(v, img))
  {
    var cat, node := CatView(v, img), Node(CatView(v, img), v.nodeSize, v.firstLeaf);
    && SlotInNode(node, 0) && 0 <= Gap(node, |rec|) && Len(v.firstLeaf, v.nodeSize) + |node| <= |cat|
    && CatView(v, img') == Patch(cat, Len(v.firstLeaf, v.nodeSize), Insertion(node, rec))
  }

  /** The catalog differs from the old one by one record, in the first leaf. */
  ghost predicate Stored(v: Volume, cat: seq<byte>, cat': seq<byte>, files: seq<FileLoc>, name: seq<byte>, id: nat,
                         fork: Fork) {
    exists rec :: RecordFits(v, cat, files, rec) && IsFileRecord(rec, name, id, fork)
        && cat' == Cat2(v, cat, files, rec)
  }

  /** Insert the record of the new file into the first leaf. */
  method StoreRecord(hfs: HFSPlusImage, name: seq<byte>, id: nat, size: nat, start: nat, n: nat,
                     ghost free: nat, ghost img: seq<byte>, ghost files: seq<FileLoc>)
    returns (e: Option<PyError>)
    requires WellFormed(hfs.Vol(), free, img, files)
    requires Staged(hfs.Vol(), free, img, hfs.freeBlocks, hfs.image, files, Run(start, n))
    requires id < TWO32 && start < TWO32 && n < TWO32 && size < TWO64 && n == BlocksFor(hfs.Vol(), size)
    modifies hfs`image
    ensures e.None? <==> RecordRoom(hfs.Vol(), CatView(hfs.Vol(), img), name)
    ensures e.Some? ==> hfs.image == old(hfs.image)
    ensures e.None? ==> RecordPut(hfs.Vol(), old(hfs.image), hfs.image, name, id, NewFork(size, start, n))
    ensures e.None? && LeafReady(hfs.Vol(), CatView(hfs.Vol(), img), files) ==>
              RecordAdded(hfs.Vol(), free, img, hfs.freeBlocks, old(hfs.image), hfs.image, files, name, id,
                          NewFork(size, start, n), Run(start, n))
  {
    hide HeaderOk, Header, Ownership, HitsListed, FreeSet, Locs, FilesSame, OwnersApartFrom, RunOwned, InVolume, View,
         Len, LeafReady, NewOff, LeafShape, Blocks, Scatter, Run, Insertion, IsFileRecord, NewFork, Node, Gap, NodeRoom,
             CeilDiv, RecordPut, RecordAdded;
    ghost var v, cat := hfs.Vol(), CatView(hfs.Vol(), img);
    var read := hfs.ReadNode(hfs.firstLeaf);
    if read.ExtentNotFound? {
      return Some(RuntimeError);
    }
    var node := read.data;
    if node[8] != LEAF_KIND {
      return Some(RuntimeError);
    }
    var leaf, rec;
    e, leaf, rec := NewLeaf(node, name, id, size, CeilDiv(size, hfs.blockSize), start, n);
    if e.None? {
      LenMul(hfs.firstLeaf, hfs.nodeSize);
      LenNext(hfs.firstLeaf, hfs.nodeSize);
      InVolumeInImage(v, hfs.image, CatBlocks(v));
      ghost var before := hfs.image;
      var ok;
      hfs.image, ok := WriteFork(hfs.image, hfs.blockSize, hfs.catalog, hfs.firstLeaf * hfs.nodeSize, leaf);
      PutBy(v, hfs.freeBlocks, before, hfs.image, files, rec, name, id, NewFork(size, start, n), leaf);
      if LeafReady(v, cat, files) {
        AddedBy(v, free, img, hfs.freeBlocks, before, hfs.image, files, rec, name, id, size, start, n, leaf);
      }
    }
  }

  /** The record in place: one more file, and every lookup as stated. */
  ghost predicate RecordAdded(v: Volume, free: nat, img: seq<byte>, free': nat, mid: seq<byte>, img': seq<byte>,
                              files: seq<FileLoc>, name: seq<byte>, id: nat, fork: Fork, nb: seq<nat>)
    requires WellFormed(v, free, img, files) && RecordStorable(v, CatView(v, img), files, name)
    requires Geometry(v, mid) && InVolume(v, nb)
  {
    var cat := CatView(v, img);
    && Added(v, free, img, free', img', files, NewLoc(v, cat, files, name), fork, ViewOf(v, mid, nb))
    && Lookups(v, cat, CatView(v, img'), name, v.firstLeaf, NewData(v, cat, files, name), NewGap(v, cat, files, name))
    && Stored(v, cat, CatView(v, img'), files, name, id, fork)
  }

  lemma PutBy(v: Volume, free: nat, img: seq<byte>, img': seq<byte>, files: seq<FileLoc>, rec: seq<byte>,
              name: seq<byte>, id: nat, fork: Fork, leaf: seq<byte>)
    requires WellFormed(v, free, img, files) && RecordRoom(v, CatView(v, img), name)
    requires IsFileRecord(rec, name, id, fork)
    requires leaf == Insertion(Node(CatView(v, img), v.nodeSize, v.firstLeaf), rec)
    requires WrittenThrough(v, img, img', leaf)
    ensures RecordPut(v, img, img', name, id, fork)
  {
    hide HeaderOk, Header, Ownership, HitsListed, FreeSet, Locs, View, Len, Scatter, Insertion, IsFileRecord, Gap,
         TableRead, NoDup, InVolume, Patch, AsciiOnly, SlotPos;
    RecordEven(rec, name, id, fork);
    SystemOwners(v, free, img, files);
    InVolumeInImage(v, img, CatBlocks(v));
    LenNext(v.firstLeaf, v.nodeSize);
    ScatterSameOutside(v, img, CatBlocks(v), Len(v.firstLeaf, v.nodeSize), leaf);
    ScatterView(img, v.blockSize, CatBlocks(v), Len(v.firstLeaf, v.nodeSize), leaf);
    assert PutIn(v, img, img', rec);
  }

  /** The first leaf written through the catalog's extents. */
  ghost predicate WrittenThrough(v: Volume, img: seq<byte>, img': seq<byte>, leaf: seq<byte>)
    requires Geometry(v, img) && Forks(v) && FirstLeafFound(v, CatView(v, img)) && |leaf| == v.nodeSize
  {
    InVolumeInImage(v, img, CatBlocks(v));
    LenNext(v.firstLeaf, v.nodeSize);
    img' == Scatter(img, v.blockSize, CatBlocks(v), Len(v.firstLeaf, v.nodeSize), leaf)
  }

  lemma AddedBy(v: Volume, free: nat, img: seq<byte>, free': nat, mid: seq<byte>, img': seq<byte>, files: seq<FileLoc>,
                rec: seq<byte>, name: seq<byte>, id: nat, size: nat, start: nat, n: nat, leaf: seq<byte>)
    requires WellFormed(v, free, img, files) && Staged(v, free, img, free', mid, files, Run(start, n))
    requires RecordStorable(v, CatView(v, img), files, name) && IsFileRecord(rec, name, id, NewFork(size, start, n))
    requires leaf == Insertion(Node(CatView(v, img), v.nodeSize, v.firstLeaf), rec)
    requires WrittenThrough(v, mid, img', leaf)
    ensures RecordAdded(v, free, img, free', mid, img', files, name, id, NewFork(size, start, n), Run(start, n))
  {
    hide HeaderOk, Header, Ownership, HitsListed, FreeSet, Locs, FilesSame, OwnersApartFrom, RunOwned, InVolume, View,
         Len,
         NewOff, LeafShape, Blocks, Scatter, Run, Insertion, IsFileRecord, Cat2, Stored, NewFork, Added, Lookups, Node,
             Gap, TableRead, AsciiOnly, SlotPos;
    var cat := CatView(v, img);
    RecordEven(rec, name, id, NewFork(size, start, n));
    NewForkBlocks(size, start, n);
    StageLeaf(v, free, img, free', mid, files, Run(start, n), rec, name, id, NewFork(size, start, n));
    LookupsCreated(v, cat, files, rec, name, id, NewFork(size, start, n));
    StoredBy(v, cat, CatView(v, img'), files, name, id, NewFork(size, start, n), rec);
  }

  lemma StoredBy(v: Volume, cat: seq<byte>, cat': seq<byte>, files: seq<FileLoc>, name: seq<byte>, id: nat, fork: Fork,
                 rec: seq<byte>)
    requires RecordFits(v, cat, files, rec) && IsFileRecord(rec, name, id, fork) && cat' == Cat2(v, cat, files, rec)
    ensures Stored(v, cat, cat', files, name, id, fork)
  {
    hide RecordFits, IsFileRecord, Cat2;
  }

  // ---------- the whole tool ----------

  /** The run taken but not listed: a failure after the bitmap write leaves every file and every lookup as they were. */
  ghost predicate Leaked(v: Volume, free: nat, img: seq<byte>, free': nat, img': seq<byte>, files: seq<FileLoc>,
                         size: nat)
    requires WellFormed(v, free, img, files)
  {
    && free' == free - BlocksFor(v, size) && WellFormed(v, free', img', files)
    && FilesSame(v, free, img, free', img', files) && CatView(v, img') == CatView(v, img)
    && (exists s: nat :: TakenAt(v, img, img', size, s))
    && if CountersFit(Header(img)) then FileCounted(Header(img), Header(img'), free', FileId(Header(img)))
       else FreeCounted(Header(img), Header(img'), free')
  }

  /** The first free run is taken: its blocks and no others change from free to used. */
  ghost predicate TakenAt(v: Volume, img: seq<byte>, img': seq<byte>, size: nat, s: nat)
    requires Geometry(v, img) && Forks(v)
  {
    FirstRun(v, Bitmap(v, img), s, Wanted(v, size)) && Touched(v, img, img', Run(s, BlocksFor(v, size)))
  }

  ghost predicate NewFile(v: Volume, free: nat, img: seq<byte>, free': nat, img': seq<byte>, files: seq<FileLoc>,
                          name: seq<byte>, id: nat, start: nat, payload: seq<byte>)
    requires WellFormed(v, free, img, files) && RecordStorable(v, CatView(v, img), files, name)
  {
    var cat, loc, n := CatView(v, img), NewLoc(v, CatView(v, img), files, name), BlocksFor(v, |payload|);
    && free' == free - n && |payload| <= Len(n, v.blockSize)
    && Added(v, free, img, free', img', files, loc, NewFork(|payload|, start, n),
             payload + Zeros(Len(n, v.blockSize) - |payload|))
    && Stored(v, cat, CatView(v, img'), files, name, id, NewFork(|payload|, start, n))
    && Lookups(v, cat, CatView(v, img'), name, v.firstLeaf, NewData(v, cat, files, name), NewGap(v, cat, files, name))
  }

  /** On any first leaf: the first free run is taken and filled, every file and the catalog as they were, the file is
      counted in the header, and the record is stored in the leaf. What the leaf makes of it is for its shape to say. */
  ghost predicate Written(v: Volume, free: nat, img: seq<byte>, free': nat, img': seq<byte>, files: seq<FileLoc>,
                          name: seq<byte>, id: nat, start: nat, payload: seq<byte>)
    requires WellFormed(v, free, img, files) && RecordRoom(v, CatView(v, img), name)
  {
    var n := BlocksFor(v, |payload|);
    && free' == free - n && |payload| <= Len(n, v.blockSize)
    && TakenAt(v, img, img', |payload|, start) && FileCounted(Header(img), Header(img'), free', id)
    && exists mid :: && Staged(v, free, img, free', mid, files, Run(start, n))
                     && ViewOf(v, mid, Run(start, n)) == payload + Zeros(Len(n, v.blockSize) - |payload|)
                     && RecordPut(v, mid, img', name, id, NewFork(|payload|, start, n))
  }

  ghost function NewGap(v: Volume, cat: seq<byte>, files: seq<FileLoc>, name: seq<byte>): int
    requires RecordStorable(v, cat, files, name)
  {
    Gap(Node(cat, v.nodeSize, v.firstLeaf), 8 + 2 * |name| + RECORD_DATA)
  }

  /** Create a file in the root folder of a mounted image. */
  method CreateRootFile(hfs: HFSPlusImage, path: seq<byte>, payload: seq<byte>, ghost files: seq<FileLoc>)
    returns (r: Creation)
    requires WellFormed(hfs.Vol(), hfs.freeBlocks, hfs.image, files)
    modifies hfs`image, hfs`freeBlocks
    ensures r.Created? <==> CanCreate(hfs.Vol(), old(hfs.image), path, |payload|)
    ensures !CanTake(hfs.Vol(), old(hfs.image), path, |payload|) ==>
              hfs.image == old(hfs.image) && hfs.freeBlocks == old(hfs.freeBlocks)
    ensures r.NotCreated? && CanTake(hfs.Vol(), old(hfs.image), path, |payload|) ==>
              Leaked(hfs.Vol(), old(hfs.freeBlocks), old(hfs.image), hfs.freeBlocks, hfs.image, files, |payload|)
    ensures r.Created? ==>
              Written(hfs.Vol(), old(hfs.freeBlocks), old(hfs.image), hfs.freeBlocks, hfs.image, files, Parts(path)[0],
                      r.id, r.start, payload)
    ensures r.Created? && LeafReady(hfs.Vol(), CatView(hfs.Vol(), old(hfs.image)), files) ==>
              NewFile(hfs.Vol(), old(hfs.freeBlocks), old(hfs.image), hfs.freeBlocks, hfs.image, files, Parts(path)[0],
                      r.id, r.start, payload)
  {
    hide HeaderOk, Header, Ownership, HitsListed, FreeSet, Locs, FilesSame, OwnersApartFrom, RunOwned, InVolume, View,
         Len, LeafReady, Blocks, Run, NewFork, CeilDiv, RunExists, StripLeft, StripRight, Parts, FindParts, RecordRoom,
         RecordStorable, RecordPut, RecordAdded, Written, NewFile, Be32, Zeros, ForkAt, Touched, FirstRun, FileCounted,
         FreeCounted, CountersFit, SameOutside;
    ghost var v, img, free := hfs.Vol(), hfs.image, hfs.freeBlocks;
    var name := StripRight(StripLeft(path));
    StripParts(path);
    if SLASH in name || name == [] {
      return NotCreated(RuntimeError);
    }
    var found, node := hfs.FindFile([SLASH] + name);
    if found.File? {
      return NotCreated(RuntimeError);
    }
    if found.e == StructError {
      return NotCreated(StructError);
    }
    BlockSize32(v, free, Header(img));
    var n := CeilDiv(|payload|, hfs.blockSize);
    var run := WriteRun(hfs, payload, files);
    if run.None? {
      return NotCreated(RuntimeError);
    }
    RunFits(v, img, run.value, n, |payload|);
    var id := WriteCounters(hfs, free, img, files, Run(run.value, n));
    if id.None? {
      LeakedBy(v, free, img, hfs.freeBlocks, hfs.image, files, |payload|, run.value);
      return NotCreated(StructError);
    }
    ghost var mid := hfs.image;
    var e := StoreRecord(hfs, name, id.value, |payload|, run.value, n, free, img, files);
    if e.Some? {
      LeakedBy(v, free, img, hfs.freeBlocks, hfs.image, files, |payload|, run.value);
      return NotCreated(e.value);
    }
    PutTouched(v, hfs.freeBlocks, img, mid, hfs.image, files, name, id.value, |payload|, run.value, n);
    WrittenBy(v, free, img, hfs.freeBlocks, mid, hfs.image, files, name, id.value, run.value, payload);
    return Created(run.value, id.value);
  }

  lemma LeakedBy(v: Volume, free: nat, img: seq<byte>, free': nat, img': seq<byte>, files: seq<FileLoc>, size: nat,
                 start: nat)
    requires WellFormed(v, free, img, files) && free' == free - BlocksFor(v, size)
    requires Staged(v, free, img, free', img', files, Run(start, BlocksFor(v, size)))
    requires TakenAt(v, img, img', size, start)
    requires if CountersFit(Header(img)) then FileCounted(Header(img), Header(img'), free', FileId(Header(img)))
             else FreeCounted(Header(img), Header(img'), free')
    ensures Leaked(v, free, img, free', img', files, size)
  {
    hide WellFormed, CeilDiv, Run, TakenAt, FileCounted, FreeCounted, CountersFit, FileId, CatView, FilesSame;
  }

  lemma PutTouched(v: Volume, free': nat, img: seq<byte>, mid: seq<byte>, img': seq<byte>, files: seq<FileLoc>,
                   name: seq<byte>, id: nat, size: nat, start: nat, n: nat)
    requires Geometry(v, img) && WellFormed(v, free', mid, files) && Touched(v, img, mid, Run(start, n))
    requires RecordRoom(v, CatView(v, mid), name) && RecordPut(v, mid, img', name, id, NewFork(size, start, n))
    ensures Touched(v, img, img', Run(start, n)) && Header(img') == Header(mid)
  {
    hide WellFormed, RecordRoom, Touched, NewFork, Run, IsFileRecord, PutIn;
    TouchedCatalog(v, free', img, mid, img', files, Run(start, n));
  }

  lemma WrittenBy(v: Volume, free: nat, img: seq<byte>, free': nat, mid: seq<byte>, img': seq<byte>,
                  files: seq<FileLoc>, name: seq<byte>, id: nat, start: nat, payload: seq<byte>)
    requires WellFormed(v, free, img, files) && RecordRoom(v, CatView(v, img), name)
    requires var n := BlocksFor(v, |payload|);
             && free' == free - n && |payload| <= Len(n, v.blockSize)
             && Staged(v, free, img, free', mid, files, Run(start, n))
             && ViewOf(v, mid, Run(start, n)) == payload + Zeros(Len(n, v.blockSize) - |payload|)
             && RecordPut(v, mid, img', name, id, NewFork(|payload|, start, n))
             && TakenAt(v, img, img', |payload|, start) && FileCounted(Header(img), Header(img'), free', id)
             && (LeafReady(v, CatView(v, img), files) ==>
                   RecordAdded(v, free, img, free', mid, img', files, name, id, NewFork(|payload|, start, n),
                               Run(start, n)))
    ensures Written(v, free, img, free', img', files, name, id, start, payload)
    ensures LeafReady(v, CatView(v, img), files) ==>
              NewFile(v, free, img, free', img', files, name, id, start, payload)
  {
    hide WellFormed, RecordRoom, RecordPut, Staged, LeafReady, Added, Lookups, Stored, NewFork, Run, CeilDiv, Len,
         Zeros, CatView, NewLoc, NewData, TakenAt, FileCounted;
  }

  lemma RunFits(v: Volume, img: seq<byte>, start: nat, n: nat, size: nat)
    requires Geometry(v, img) && v.blockSize < TWO32 && start + n <= v.totalBlocks && size <= Len(n, v.blockSize)
    ensures start < TWO32 && n < TWO32 && size < TWO64
  {
    SizeFits(v, img, Run(start, n), size);
  }

  /** Two creations in a row give out two ids, one behind the other, and count two files. */
  method CreateTwo(hfs: HFSPlusImage, path: seq<byte>, payload: seq<byte>, path2: seq<byte>, payload2: seq<byte>,
                   ghost files: seq<FileLoc>)
    returns (r: Creation, r2: Creation)
    requires WellFormed(hfs.Vol(), hfs.freeBlocks, hfs.image, files)
    requires LeafReady(hfs.Vol(), CatView(hfs.Vol(), hfs.image), files)
    modifies hfs`image, hfs`freeBlocks
    ensures r.Created? <==> CanCreate(hfs.Vol(), old(hfs.image), path, |payload|)
    ensures r.NotCreated? ==> r2 == r
    ensures r2.Created? ==>
              && r2.id == r.id + 1 == FileId(Header(old(hfs.image))) + 1 && |hfs.image| == |old(hfs.image)|
              && Be32(Header(hfs.image), FILE_COUNT_OFF) == Be32(Header(old(hfs.image)), FILE_COUNT_OFF) + 2
              && Be32(Header(hfs.image), NEXT_ID_OFF) == r2.id + 1
  {
    hide HeaderOk, Header, Ownership, HitsListed, FreeSet, Locs, View, Len, LeafReady, Be32, CanCreate, FirstRun,
         RecordPut, RecordStorable, Stored, Lookups, Staged, CeilDiv, FileFork, FileBytes, Zeros, RecordRoom, NewLoc;
    ghost var v, img := hfs.Vol(), hfs.image;
    r := CreateRootFile(hfs, path, payload, files);
    if r.NotCreated? {
      return r, r;
    }
    ghost var loc := NewLoc(v, CatView(v, img), files, Parts(path)[0]);
    NextId(Header(img), Header(hfs.image), hfs.freeBlocks, r.id);
    r2 := CreateRootFile(hfs, path2, payload2, files + [loc]);
  }

  /** The paths a creation keeps: a path that led to a file does so afterwards exactly when eight bytes are left in the
      leaf and its lookup never asks for the root's child of the new name. Otherwise it fails. The name of a root folder
      is not refused, so the paths through such a folder are lost. */
  lemma PathKeptExact(v: Volume, free: nat, img: seq<byte>, free': nat, img': seq<byte>, files: seq<FileLoc>,
                      path: seq<byte>, id: nat, start: nat, payload: seq<byte>, other: seq<byte>)
    requires WellFormed(v, free, img, files) && CanCreate(v, img, path, |payload|)
    requires RecordStorable(v, CatView(v, img), files, Parts(path)[0])
    requires NewFile(v, free, img, free', img', files, Parts(path)[0], id, start, payload)
    requires FindFileSpec(CatView(v, img), v.nodeSize, v.firstLeaf, v.lastLeaf, other).File?
    ensures var cat, ns, first, last, name := CatView(v, img), v.nodeSize, v.firstLeaf, v.lastLeaf, Parts(path)[0];
            var kept := NewGap(v, cat, files, name) >= 8 && !Asks(cat, ns, first, last, Parts(other), ROOT_ID, name);
            var now := FindFileSpec(CatView(v, img'), ns, first, last, other);
            && (now == FindFileSpec(cat, ns, first, last, other) <==> kept)
            && (!kept ==> now == Failed(if NewGap(v, cat, files, name) < 8 then StructError else RuntimeError))
  {
    hide HeaderOk, Header, Ownership, HitsListed, FreeSet, Locs, View, Len, LeafReady, LeafShape, Kept, FileBytes,
         Stored, NewGap, FileFork, FindParts, After, Asks, NewData, Node, RunExists, CatView;
    var cat, name, d := CatView(v, img), Parts(path)[0], NewData(v, CatView(v, img), files, Parts(path)[0]);
    assert LookupAfter(v, cat, CatView(v, img'), name, v.firstLeaf, d, NewGap(v, cat, files, name), other);
    assert Parts(path) == [name];
    KeptExact(cat, v.nodeSize, v.firstLeaf, v.lastLeaf, Parts(other), name, v.firstLeaf, d);
    FoundParts(cat, v, other);
  }

  lemma FoundParts(cat: seq<byte>, v: Volume, path: seq<byte>)
    requires 0 < v.nodeSize && FindFileSpec(cat, v.nodeSize, v.firstLeaf, v.lastLeaf, path).File?
    ensures Parts(path) != []
  {
    hide ScanFrom, Parts;
  }
}
