/** What creating a file keeps of the volume: lemmas about each write. */
module HfsCreateVolume {
  import opened Bytes
  import opened Blocking
  import opened HfsExtents
  import opened HfsBitmap
  import opened HfsForkRecord
  import opened HfsCatalog
  import opened HfsVolume
  import opened HfsReplace
  import opened HfsImage
  import opened HfsCreate

  // ---------- the catalog with the new leaf ----------

  function NewCatalog(cat: seq<byte>, ns: nat, first: nat, rec: seq<byte>): (r: seq<byte>)
    requires Len(first + 1, ns) <= |cat| && LeafShape(Node(cat, ns, first)) && 0 <= Gap(Node(cat, ns, first), |rec|)
    ensures |r| == |cat|
  {
    LenNext(first, ns);
    Patch(cat, Len(first, ns), Inserted(Node(cat, ns, first), rec))
  }

  lemma NewNode(cat: seq<byte>, ns: nat, first: nat, rec: seq<byte>, m: nat)
    requires Len(first + 1, ns) <= |cat| && LeafShape(Node(cat, ns, first)) && 0 <= Gap(Node(cat, ns, first), |rec|)
    requires Len(m + 1, ns) <= |cat|
    ensures Node(NewCatalog(cat, ns, first, rec), ns, m)
         == if m == first then Inserted(Node(cat, ns, first), rec) else Node(cat, ns, m)
  {
    hide LeafShape, Inserted, Patch, Len, Gap;
    var node' := Inserted(Node(cat, ns, first), rec);
    NodeOfPatch(cat, ns, first, 0, node', m);
    PatchWhole(Node(cat, ns, first), node');
  }

  lemma PatchWhole(b: seq<byte>, d: seq<byte>)
    requires |b| == |d|
    ensures Patch(b, 0, d) == d
  {
  }

  lemma {:induction false} LaterLeaves(cat: seq<byte>, ns: nat, first: nat, rec: seq<byte>, n: nat, last: nat,
                                       parent: nat, target: seq<byte>)
    requires 12 <= ns && Len(first + 1, ns) <= |cat| && LeafShape(Node(cat, ns, first))
    requires 0 <= Gap(Node(cat, ns, first), |rec|)
    requires first < n
    ensures ScanFrom(NewCatalog(cat, ns, first, rec), ns, n, last, parent, target)
        == ScanFrom(cat, ns, n, last, parent, target)
    decreases last + 1 - n
  {
    hide LeafShape, NewCatalog, Node, Len, ScanNode, Gap;
    if n <= last && Len(n + 1, ns) <= |cat| {
      NewNode(cat, ns, first, rec, n);
      LaterLeaves(cat, ns, first, rec, n + 1, last, parent, target);
    }
  }

  /** The scan after the insertion, for every key: the new file for its own key, the old answer for
      every other, as long as eight free bytes are left; otherwise nothing can be found any more. */
  lemma ScanCreated(cat: seq<byte>, ns: nat, first: nat, last: nat, rec: seq<byte>, name: seq<byte>, id: nat,
                    fork: Fork, parent: nat, target: seq<byte>)
    requires 12 <= ns && first <= last && Len(first + 1, ns) <= |cat| && LeafShape(Node(cat, ns, first))
    requires 0 <= Gap(Node(cat, ns, first), |rec|) && IsFileRecord(rec, name, id, fork) && target != []
    ensures var node := Node(cat, ns, first);
            ScanFrom(NewCatalog(cat, ns, first, rec), ns, first, last, parent, target)
            == if Gap(node, |rec|) < 8 then Raised(StructError)
               else if parent == ROOT_ID && target == name then Hit(first, NewOff(node) + 8 + 2 * |name|, FILE_RECORD)
               else ScanFrom(cat, ns, first, last, parent, target)
  {
    hide NewCatalog, Node, Len, ScanNode, Gap, IsFileRecord, Inserted, SlotBelow, NewOff, Records;
    var node := Node(cat, ns, first);
    NewNode(cat, ns, first, rec, first);
    LaterLeaves(cat, ns, first, rec, first + 1, last, parent, target);
    RecordEven(rec, name, id, fork);
    InsertedTable(node, rec);
    if Gap(node, |rec|) < 8 {
      ScanInsertedFull(first, node, rec, parent, target);
    } else {
      ScanInserted(first, node, rec, name, id, fork, parent, target);
    }
  }

  lemma RecordEven(rec: seq<byte>, name: seq<byte>, id: nat, fork: Fork)
    requires IsFileRecord(rec, name, id, fork)
    ensures |rec| % 2 == 0 && |rec| == 8 + 2 * |name| + RECORD_DATA
  {
  }

  // ---------- record windows ----------

  lemma ClearInserted(node: seq<byte>, rec: seq<byte>, lo: nat, hi: nat)
    requires LeafShape(node) && 0 <= Gap(node, |rec|) && Clear(node, lo, hi) && lo <= hi <= RecOff(node, 0)
    ensures Clear(Inserted(node, rec), lo, hi)
  {
    hide Inserted, SlotBelow, Be16, SlotPos;
    var r := Inserted(node, rec);
    InsertedTable(node, rec);
    TableRoom(node, rec);
    forall k | 0 <= k < Records(r) ensures SlotInNode(r, k) && SlotClear(r, k, lo, hi) {
      if k >= 2 {
        assert SlotShifted(node, r, k - 1);
        var o := RecOff(node, k - 1);
        assert SlotBelow(node, o, RecOff(node, 0)) && SlotClear(node, k - 1, lo, hi);
        OldSlot(node, rec, o, 0, []);
      }
    }
  }

  lemma TableRoom(node: seq<byte>, rec: seq<byte>)
    requires LeafShape(node) && 0 <= Gap(node, |rec|)
    ensures SlotInNode(node, 0) && 2 * (Records(node) + 2) <= |node|
    ensures RecOff(node, 0) <= NewOff(node) <= NewOff(node) + |rec| <= |node| - 2 * (Records(node) + 2)
  {
  }

  lemma ClearNew(node: seq<byte>, rec: seq<byte>, name: seq<byte>, id: nat, fork: Fork)
    requires LeafShape(node) && 0 <= Gap(node, |rec|) && IsFileRecord(rec, name, id, fork)
    ensures var lo := NewOff(node) + 8 + 2 * |name| + DATA_FORK_OFF;
            lo + FORK_SIZE <= |node| && Clear(Inserted(node, rec), lo, lo + FORK_SIZE)
  {
    hide Inserted, Be16, SlotPos, IsFileRecord, ForkAt, KeyMatches, Be32;
    var r := Inserted(node, rec);
    var lo := NewOff(node) + 8 + 2 * |name| + DATA_FORK_OFF;
    InsertedTable(node, rec);
    TableRoom(node, rec);
    RecordEven(rec, name, id, fork);
    NewSlot(node, rec, name, id, fork, 0, []);
    var hi := lo + FORK_SIZE;
    forall k | 0 <= k < Records(r) ensures SlotInNode(r, k) && SlotClear(r, k, lo, hi) {
      if k >= 2 {
        assert SlotShifted(node, r, k - 1);
        var o := RecOff(node, k - 1);
        assert SlotBelow(node, o, RecOff(node, 0));
        OldSlot(node, rec, o, 0, []);
      }
    }
  }

  // ---------- the volume with the new file ----------

  /** What creation needs of the first leaf: the expected shape, and no listed record above its free space. */
  ghost predicate LeafReady(v: Volume, cat: seq<byte>, files: seq<FileLoc>) {
    && Len(v.firstLeaf + 1, v.nodeSize) <= |cat| && 0 < v.firstLeaf <= v.lastLeaf
    && LeafShape(Node(cat, v.nodeSize, v.firstLeaf))
    && forall f :: f in files && f.node == v.firstLeaf ==>
        f.off + FORK_SIZE <= RecOff(Node(cat, v.nodeSize, v.firstLeaf), 0)
  }

  ghost predicate RecordFits(v: Volume, cat: seq<byte>, files: seq<FileLoc>, rec: seq<byte>) {
    && LeafReady(v, cat, files) && 0 <= Gap(Node(cat, v.nodeSize, v.firstLeaf), |rec|)
  }

  ghost function NewLoc(v: Volume, cat: seq<byte>, files: seq<FileLoc>, name: seq<byte>): FileLoc
    requires LeafReady(v, cat, files)
  {
    FileLoc(v.firstLeaf, NewOff(Node(cat, v.nodeSize, v.firstLeaf)) + 8 + 2 * |name| + DATA_FORK_OFF)
  }

  ghost function Cat2(v: Volume, cat: seq<byte>, files: seq<FileLoc>, rec: seq<byte>): (r: seq<byte>)
    requires RecordFits(v, cat, files, rec)
    ensures |r| == |cat|
  {
    NewCatalog(cat, v.nodeSize, v.firstLeaf, rec)
  }

  lemma OldWindow(v: Volume, cat: seq<byte>, files: seq<FileLoc>, rec: seq<byte>, f: FileLoc)
    requires RecordFits(v, cat, files, rec) && Locs(v, cat, files) && f in files
    ensures WindowClear(Cat2(v, cat, files, rec), v.nodeSize, f.node, f.off, FORK_SIZE)
    ensures FileFork(v, Cat2(v, cat, files, rec), f) == FileFork(v, cat, f)
  {
    hide LeafShape, Len, ForkAt, Clear, NewCatalog, Gap, NewOff, Node, RecOff;
    var cat' := Cat2(v, cat, files, rec);
    var ns, node := v.nodeSize, Node(cat, v.nodeSize, v.firstLeaf);
    NewNode(cat, ns, v.firstLeaf, rec, f.node);
    WindowBytes(v, cat, f);
    if f.node == v.firstLeaf {
      KeptWindow(node, rec, f.off);
    }
    WindowBytes(v, cat', f);
    SameFork(Node(cat', ns, f.node), f.off, Node(cat, ns, f.node), f.off);
  }

  /** A fork record below the free space is clear of the scan and unchanged after an insertion. */
  lemma KeptWindow(node: seq<byte>, rec: seq<byte>, off: nat)
    requires LeafShape(node) && 0 <= Gap(node, |rec|) && Clear(node, off, off + FORK_SIZE)
    requires off + FORK_SIZE <= RecOff(node, 0)
    ensures Clear(Inserted(node, rec), off, off + FORK_SIZE)
    ensures Inserted(node, rec)[off..off + FORK_SIZE] == node[off..off + FORK_SIZE]
  {
    hide LeafShape, Clear, Gap, Inserted, RecOff;
    LeafSize(node);
    WindowLow(node, off, off + FORK_SIZE);
    ClearInserted(node, rec, off, off + FORK_SIZE);
    BelowFree(node, rec, off, FORK_SIZE);
  }

  lemma LeafSize(node: seq<byte>)
    requires LeafShape(node)
    ensures 12 <= |node|
  {
  }

  lemma WindowLow(node: seq<byte>, lo: nat, hi: nat)
    requires 12 <= |node| && Clear(node, lo, hi)
    ensures 12 <= lo
  {
  }

  lemma NewWindow(v: Volume, cat: seq<byte>, files: seq<FileLoc>, rec: seq<byte>, name: seq<byte>, id: nat, fork: Fork)
    requires RecordFits(v, cat, files, rec) && IsFileRecord(rec, name, id, fork) && 12 <= v.nodeSize
    ensures var cat', loc := Cat2(v, cat, files, rec), NewLoc(v, cat, files, name);
            && WindowClear(cat', v.nodeSize, loc.node, loc.off, FORK_SIZE)
            && FileFork(v, cat', loc) == fork
            && RecOff(Node(cat, v.nodeSize, v.firstLeaf), 0) <= loc.off
  {
    hide LeafShape, Len, ForkAt, Clear, NewCatalog, IsFileRecord, Inserted, RecOff, Be16, Be32, KeyMatches;
    var cat', loc := Cat2(v, cat, files, rec), NewLoc(v, cat, files, name);
    var node := Node(cat, v.nodeSize, v.firstLeaf);
    NewNode(cat, v.nodeSize, v.firstLeaf, rec, v.firstLeaf);
    ClearNew(node, rec, name, id, fork);
    NewSlot(node, rec, name, id, fork, 0, []);
    WindowBytes(v, cat', loc);
  }

  lemma LocsCreated(v: Volume, cat: seq<byte>, files: seq<FileLoc>, rec: seq<byte>, name: seq<byte>, id: nat,
                    fork: Fork)
    requires RecordFits(v, cat, files, rec) && IsFileRecord(rec, name, id, fork) && 12 <= v.nodeSize
    requires Locs(v, cat, files)
    ensures Locs(v, Cat2(v, cat, files, rec), files + [NewLoc(v, cat, files, name)])
  {
    hide LeafShape, Len, NewCatalog, IsFileRecord, WindowClear, RecOff, NewOff, Gap;
    var cat', loc := Cat2(v, cat, files, rec), NewLoc(v, cat, files, name);
    var all := files + [loc];
    NewWindow(v, cat, files, rec, name, id, fork);
    forall f | f in all ensures 0 < f.node && WindowClear(cat', v.nodeSize, f.node, f.off, FORK_SIZE) {
      if f in files {
        OldWindow(v, cat, files, rec, f);
      }
    }
    forall i, j | 0 <= i < j < |all| && all[i].node == all[j].node
      ensures Disjoint(all[i].off, all[i].off + FORK_SIZE, all[j].off, all[j].off + FORK_SIZE)
    {
      if j == |files| {
        assert files[i] in files;
      }
    }
  }

  lemma HitsCreated(v: Volume, cat: seq<byte>, files: seq<FileLoc>, rec: seq<byte>, name: seq<byte>, id: nat,
                    fork: Fork)
    requires RecordFits(v, cat, files, rec) && IsFileRecord(rec, name, id, fork) && 12 <= v.nodeSize
    requires HitsListed(v, cat, files)
    ensures HitsListed(v, Cat2(v, cat, files, rec), files + [NewLoc(v, cat, files, name)])
  {
    hide LeafShape, Len, NewCatalog, IsFileRecord, RecOff, NewOff, Gap, ScanFrom, Node;
    var cat', loc := Cat2(v, cat, files, rec), NewLoc(v, cat, files, name);
    forall p: nat, t: seq<byte> ensures Listed(v, cat', files + [loc], p, t) {
      assert Listed(v, cat, files, p, t);
      if t != [] {
        ScanCreated(cat, v.nodeSize, v.firstLeaf, v.lastLeaf, rec, name, id, fork, p, t);
      }
    }
  }

  // ---------- the four writes ----------

  /** Every listed file keeps its record and all its bytes. */
  ghost predicate FilesSame(v: Volume, free: nat, img: seq<byte>, free': nat, img': seq<byte>, files: seq<FileLoc>)
    requires WellFormed(v, free, img, files) && WellFormed(v, free', img', files)
  {
    forall j :: 0 <= j < |files| ==>
      && FileFork(v, CatView(v, img'), files[j]) == FileFork(v, CatView(v, img), files[j])
      && FileBytes(v, free', img', files, j) == FileBytes(v, free, img, files, j)
  }

  ghost predicate OwnersApartFrom(v: Volume, cat: seq<byte>, files: seq<FileLoc>, nb: seq<nat>)
    requires 0 < v.blockSize && Locs(v, cat, files)
  {
    forall i: nat :: i < 3 + |files| ==> Apart(Owned(v, cat, files, i), nb)
  }

  /** The bitmap and free count written with a clear run marked: nothing else moves. */
  lemma MarkedWellFormed(v: Volume, free: nat, img: seq<byte>, files: seq<FileLoc>, nb: seq<nat>, bitmap': seq<byte>)
    requires WellFormed(v, free, img, files) && NoDup(nb) && InVolume(v, nb)
    requires forall b :: b in nb ==> b < v.totalBlocks && !IsUsed(Bitmap(v, img), b)
    requires Remarked(Bitmap(v, img), bitmap', nb, [])
    ensures |nb| <= free < TWO32 && |bitmap'| == v.alloc.size
    ensures var img' := BitmapWritten(v, img, free - |nb|, bitmap');
            && WellFormed(v, free - |nb|, img', files) && FilesSame(v, free, img, free - |nb|, img', files)
            && CatView(v, img') == CatView(v, img) && Bitmap(v, img') == bitmap'
            && OwnersApartFrom(v, CatView(v, img'), files, nb)
  {
    hide Clear, ScanFrom, NoDup, IsUsed, View, Len, Patch, Apart, InVolume, HeaderOk, Header, HitsListed, ForkAt,
         FileBlocks, BitmapWritten, Owned, BlockOf, FreeSet;
    var cat, free' := CatView(v, img), free - |nb|;
    MoveConserves(Bitmap(v, img), bitmap', v.totalBlocks, nb, []);
    var img' := BitmapWritten(v, img, free', bitmap');
    SystemOwners(v, free, img, files);
    BitmapEffect(v, img, free', bitmap');
    BitmapKeepsCatalog(v, free, img, files, free', bitmap');
    HeaderFree(v, free, Header(img), free');
    forall i: nat | i < 3 + |files| ensures Apart(Owned(v, cat, files, i), nb) {
      ClearRunIsFree(v, free, img, files, nb, i);
    }
    MarkedOwners(v, cat, files, Bitmap(v, img), bitmap', nb);
    forall j | 0 <= j < |files| ensures FileBytes(v, free', img', files, j) == FileBytes(v, free, img, files, j) {
      FileApart(v, free, img, files, j);
      BitmapOther(v, img, free', bitmap', FileBlocks(v, cat, files[j]));
    }
  }

  lemma MarkedOwners(v: Volume, cat: seq<byte>, files: seq<FileLoc>, bitmap: seq<byte>, bitmap': seq<byte>,
                     nb: seq<nat>)
    requires 0 < v.blockSize && Locs(v, cat, files) && v.totalBlocks <= 8 * |bitmap|
    requires Ownership(v, cat, files, bitmap) && Remarked(bitmap, bitmap', nb, [])
    ensures Ownership(v, cat, files, bitmap')
  {
    hide Owned, NoDup, Apart, IsUsed, Locs;
    forall i: nat | i < 3 + |files| ensures OwnerOk(v, cat, files, bitmap', i) {
      assert OwnerOk(v, cat, files, bitmap, i);
    }
    forall i: nat, j: nat | i < 3 + |files| && j < 3 + |files| ensures OwnersApart(v, cat, files, i, j) {
      assert OwnersApart(v, cat, files, i, j);
    }
  }

  /** A write into blocks nobody owns. */
  lemma UnownedWrite(v: Volume, free: nat, img: seq<byte>, img': seq<byte>, files: seq<FileLoc>, nb: seq<nat>)
    requires WellFormed(v, free, img, files) && SameOutside(v.blockSize, img, img', nb)
    requires OwnersApartFrom(v, CatView(v, img), files, nb)
    ensures WellFormed(v, free, img', files) && FilesSame(v, free, img, free, img', files)
    ensures CatView(v, img') == CatView(v, img) && Bitmap(v, img') == Bitmap(v, img) && Header(img') == Header(img)
  {
    hide Clear, ScanFrom, NoDup, IsUsed, View, Len, InVolume, HeaderOk, Header, HitsListed, ForkAt, BlockOf, FreeSet,
         SameOutside;
    var cat := CatView(v, img);
    assert Owned(v, cat, files, 0) == [HdrBlock(v)] && Owned(v, cat, files, 1) == AllocBlocks(v)
        && Owned(v, cat, files, 2) == CatBlocks(v);
    assert HdrBlock(v) in Owned(v, cat, files, 0);
    OutsideHeader(v, img, img', nb);
    OutsideView(v, img, img', nb, AllocBlocks(v));
    OutsideView(v, img, img', nb, CatBlocks(v));
    forall j | 0 <= j < |files| ensures FileBytes(v, free, img', files, j) == FileBytes(v, free, img, files, j) {
      FileApart(v, free, img, files, j);
      assert Owned(v, cat, files, 3 + j) == FileBlocks(v, cat, files[j]);
      OutsideView(v, img, img', nb, FileBlocks(v, cat, files[j]));
    }
  }

  /** The header rewritten with other counters. */
  lemma HeaderRewritten(v: Volume, free: nat, img: seq<byte>, files: seq<FileLoc>, h: seq<byte>)
    requires WellFormed(v, free, img, files) && |h| == HDR_LEN && HeaderOk(v, free, h)
    ensures var img' := Patch(img, HDR_OFF, h);
            && WellFormed(v, free, img', files) && FilesSame(v, free, img, free, img', files)
            && CatView(v, img') == CatView(v, img) && Bitmap(v, img') == Bitmap(v, img)
            && SameOutside(v.blockSize, img, img', [HdrBlock(v)])
  {
    hide Clear, ScanFrom, NoDup, IsUsed, View, Len, InVolume, HeaderOk, Header, HitsListed, ForkAt, BlockOf, FreeSet,
         Patch, SameOutside, Ownership;
    var cat, img' := CatView(v, img), Patch(img, HDR_OFF, h);
    HeaderPatch(v, img, 0, h);
    PatchWhole(Header(img), h);
    SystemOwners(v, free, img, files);
    NotHdr(v, AllocBlocks(v));
    NotHdr(v, CatBlocks(v));
    OutsideView(v, img, img', [HdrBlock(v)], AllocBlocks(v));
    OutsideView(v, img, img', [HdrBlock(v)], CatBlocks(v));
    forall j | 0 <= j < |files| ensures FileBytes(v, free, img', files, j) == FileBytes(v, free, img, files, j) {
      FileApart(v, free, img, files, j);
      NotHdr(v, FileBlocks(v, cat, files[j]));
      OutsideView(v, img, img', [HdrBlock(v)], FileBlocks(v, cat, files[j]));
    }
  }

  lemma NotHdr(v: Volume, blocks: seq<nat>)
    requires 0 < v.blockSize && HdrBlock(v) !in blocks
    ensures Apart(blocks, [HdrBlock(v)])
  {
  }
}
