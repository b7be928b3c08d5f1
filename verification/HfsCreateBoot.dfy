/** The booter on a volume the host has just created a file on. */
module HfsCreateBoot {
  import opened Bytes
  import opened Blocking
  import opened HfsExtents
  import opened HfsForkRecord
  import opened HfsCatalog
  import opened HfsVolume
  import opened HfsImage
  import opened HfsCreate
  import opened HfsCreateVolume
  import opened HfsCreateFile
  import opened HfsCreateRoot
  import opened HfsBootCatalog
  import opened HfsBoot
  import opened HfsRoundTrip

  // ---------- the first two slots of the new leaf ----------

  lemma SameChars(a: seq<byte>, ao: nat, b: seq<byte>, bo: nat, n: nat)
    requires ao + 2 * n <= |a| && bo + 2 * n <= |b| && a[ao..ao + 2 * n] == b[bo..bo + 2 * n]
    ensures forall i :: 0 <= i < n ==> Be16(a, ao + 2 * i) == Be16(b, bo + 2 * i)
  {
    forall i | 0 <= i < n ensures Be16(a, ao + 2 * i) == Be16(b, bo + 2 * i) {
      SubSlice(a, ao, a[ao..ao + 2 * n], 2 * i, 2);
      SubSlice(b, bo, a[ao..ao + 2 * n], 2 * i, 2);
      SameFields(a, b, ao + 2 * i, bo + 2 * i, 2);
    }
  }

  /** The name of the new record, as the leaf holds it. */
  lemma NewName(node: seq<byte>, rec: seq<byte>, name: seq<byte>, id: nat, fork: Fork)
    requires LeafShape(node) && 0 <= Gap(node, |rec|) && IsFileRecord(rec, name, id, fork)
    ensures var r, at := Inserted(node, rec), NewOff(node) + 8;
            at + 2 * |name| <= |r| && AsciiName(r, at, |name|) == name && NoZeroChars(r, at, |name|)
  {
    hide LeafShape, Inserted, ForkAt, Be32, Be16, AsciiName;
    LeafBounds(node);
    InsertedBytes(node, rec);
    var r, o := Inserted(node, rec), NewOff(node);
    SubSlice(r, o, rec, 8, 2 * |name|);
    SameName(r, o + 8, rec, 8, |name|);
    SameChars(r, o + 8, rec, 8, |name|);
  }

  /** The slot of the free space never names a child of the root, however little space is left: either the key or the
      record does not fit the node, or what stands for the parent is zero or an offset. */
  lemma FreeSlotSkipped(node: seq<byte>, rec: seq<byte>, target: seq<byte>, folder: bool)
    requires LeafShape(node) && 0 <= Gap(node, |rec|) && |rec| % 2 == 0
    ensures var r := Inserted(node, rec);
            && 2 * (Records(r) + 1) <= |r|
            && BootScanNode(r, ROOT_ID, target, folder, 0) == BootScanNode(r, ROOT_ID, target, folder, 1)
  {
    hide Inserted, LeafShape, CStr, BootName;
    LeafBounds(node);
    InsertedTable(node, rec);
    TableRoom(node, rec);
    FreeSlotBytes(node, rec);
  }

  lemma FreeSlotBytes(node: seq<byte>, rec: seq<byte>)
    requires LeafShape(node) && 0 <= Gap(node, |rec|) && |rec| % 2 == 0
    ensures var r, o := Inserted(node, rec), NewOff(node) + |rec|;
            o + 8 >= |r| || DataOff(r, o) + 2 > |r| || Be32(r, o + 2) != ROOT_ID
  {
    hide Inserted, LeafShape, RecOff, NewOff, Records;
    LeafBounds(node);
    var r, o, g := Inserted(node, rec), NewOff(node) + |rec|, Gap(node, |rec|);
    FreeBytesZero(node, rec);
    if g >= 6 {
      assert r[o + 2] == 0 && r[o + 3] == 0 && r[o + 4] == 0 && r[o + 5] == 0;
    } else if g == 4 {
      assert r[o + 2] == 0 && r[o + 3] == 0 && Be16(r, o + 4) == o;
    } else if g == 2 {
      assert Be16(r, o + 2) == o;
    } else {
      assert Be16(r, o) == o;
    }
  }

  /** What follows the new record: zeros, then the offset of the free space. */
  lemma FreeBytesZero(node: seq<byte>, rec: seq<byte>)
    requires LeafShape(node) && 0 <= Gap(node, |rec|) && |rec| % 2 == 0
    ensures var r, o, g := Inserted(node, rec), NewOff(node) + |rec|, Gap(node, |rec|);
            && g % 2 == 0 && o + g + 4 <= |r| && (forall p :: o <= p < o + g ==> r[p] == 0)
            && Be16(r, o + g) == o && 22 <= o && |r| == o + g + 2 * (Records(node) + 2) && 8 * Records(node) <= o
  {
    hide Inserted, SlotBelow, Be16;
    InsertedBytes(node, rec);
    TableRoom(node, rec);
    assert RecOff(node, 0) >= FIRST_RECORD + 8 * Records(node);
  }

  /** Slot 1 is the new file. */
  lemma NewSlotFound(node: seq<byte>, rec: seq<byte>, name: seq<byte>, id: nat, fork: Fork)
    requires LeafShape(node) && 0 <= Gap(node, |rec|) && IsFileRecord(rec, name, id, fork)
    ensures var r := Inserted(node, rec);
            && 2 * (Records(r) + 1) <= |r| && Records(r) != 0
            && BootScanNode(r, ROOT_ID, Cut127(name), false, 0) == NodeHit(NewOff(node) + 8 + 2 * |name|)
  {
    hide Inserted, LeafShape, CStr, BootName, AsciiName, Be16, IsFileRecord, NewOff, ForkAt, RecOff, Records,
         KeyMatches, Gap;
    LeafBounds(node);
    var r, o := Inserted(node, rec), NewOff(node);
    RecordEven(rec, name, id, fork);
    InsertedTable(node, rec);
    TableRoom(node, rec);
    FreeSlotSkipped(node, rec, Cut127(name), false);
    NewSlot(node, rec, name, id, fork, ROOT_ID, name);
    NewName(node, rec, name, id, fork);
    assert Be32(r, o + 2) == ROOT_ID by {
      assert KeyMatches(r, o, ROOT_ID, name);
      MatchParent(r, o, ROOT_ID, name);
    }
    assert NoZeroChars(r, o + 8, Min(|name|, NAME_CAP));
    WholeName(name);
    BootNameMatches(r, o + 8, |name|, Cut127(name));
    assert BootScanNode(r, ROOT_ID, Cut127(name), false, 1) == NodeHit(o + 8 + 2 * |name|);
  }

  lemma WholeName(name: seq<byte>)
    ensures |name| <= NAME_CAP ==> Cut127(name) == name
    ensures |name| > NAME_CAP ==> Cut127(name) == name[..NAME_CAP]
  {
  }

  lemma MatchParent(node: seq<byte>, o: nat, parent: nat, target: seq<byte>)
    requires KeyInNode(node, o) && KeyMatches(node, o, parent, target)
    ensures Be32(node, o + 2) == parent
  {
  }

  // ---------- the new file is found ----------

  /** Whatever is left in the leaf, the booter's lookup of the new name leads to the new record. */
  lemma BootFindsCreated(v: Volume, cat: seq<byte>, files: seq<FileLoc>, rec: seq<byte>, name: seq<byte>, id: nat,
                         fork: Fork)
    requires RecordFits(v, cat, files, rec) && 12 <= v.nodeSize && IsFileRecord(rec, name, id, fork)
    requires Len(v.firstLeaf + 1, v.nodeSize) <= v.cat.size
    ensures BootFindParts(Cat2(v, cat, files, rec), v.cat.size, v.nodeSize, v.firstLeaf, v.lastLeaf, [name], ROOT_ID)
         == BootFile(v.firstLeaf, NewData(v, cat, files, name))
  {
    hide LeafShape, BootScanNode, NewCatalog, Node, Gap, NewOff, IsFileRecord, Inserted, Records, Cut127, Len;
    var node := Node(cat, v.nodeSize, v.firstLeaf);
    LenNext(v.firstLeaf, v.nodeSize);
    LeafBounds(node);
    InsertedTable(node, rec);
    NewNode(cat, v.nodeSize, v.firstLeaf, rec, v.firstLeaf);
    NewSlotFound(node, rec, name, id, fork);
  }

  // ---------- a bootable volume stays one while eight bytes are left ----------

  lemma OldName(node: seq<byte>, rec: seq<byte>, o: nat, longest: nat)
    requires LeafShape(node) && 0 <= Gap(node, |rec|) && FIRST_RECORD <= o && SlotBelow(node, o, RecOff(node, 0))
    requires NameOk(node, o, longest)
    ensures o + 8 <= |Inserted(node, rec)| && NameOk(Inserted(node, rec), o, longest)
  {
    hide Inserted, LeafShape, Be16, Be32, AsciiName;
    var n := NameLen(node, o);
    OldSlot(node, rec, o, 0, []);
    BelowFree(node, rec, o + 8, 2 * n);
    SameChars(Inserted(node, rec), o + 8, node, o + 8, n);
  }

  lemma LeafOkCreated(node: seq<byte>, rec: seq<byte>, name: seq<byte>, id: nat, fork: Fork, longest: nat)
    requires LeafShape(node) && 8 <= Gap(node, |rec|) && IsFileRecord(rec, name, id, fork) && LeafOk(node, longest)
    requires |name| <= NAME_CAP || longest < NAME_CAP
    ensures LeafOk(Inserted(node, rec), longest)
  {
    hide Inserted, Be16, Be32, AsciiName, SlotBelow, NameOk, IsFileRecord, KeyMatches, ForkAt;
    var r := Inserted(node, rec);
    InsertedTable(node, rec);
    TableRoom(node, rec);
    RecordEven(rec, name, id, fork);
    forall k | 0 <= k < Records(r) && RecOff(r, k) + 8 <= |r| ensures NameOk(r, RecOff(r, k), longest) {
      if k == 0 {
        FreeNameOk(node, rec, longest);
      } else if k == 1 {
        NewNameOk(node, rec, name, id, fork, longest);
      } else {
        assert SlotShifted(node, r, k - 1);
        assert SlotBelow(node, RecOff(node, k - 1), RecOff(node, 0));
        SlotBelowKey(node, RecOff(node, k - 1), RecOff(node, 0));
        OldName(node, rec, RecOff(node, k - 1), longest);
      }
    }
  }

  lemma FreeNameOk(node: seq<byte>, rec: seq<byte>, longest: nat)
    requires LeafShape(node) && 8 <= Gap(node, |rec|) && |rec| % 2 == 0
    ensures var o := NewOff(node) + |rec|; o + 8 <= |node| && NameOk(Inserted(node, rec), o, longest)
  {
    hide Inserted, LeafShape, RecOff, NewOff, Records;
    LeafBounds(node);
    FreeBytesZero(node, rec);
  }

  lemma NewNameOk(node: seq<byte>, rec: seq<byte>, name: seq<byte>, id: nat, fork: Fork, longest: nat)
    requires LeafShape(node) && 0 <= Gap(node, |rec|) && IsFileRecord(rec, name, id, fork)
    requires |name| <= NAME_CAP || longest < NAME_CAP
    ensures NewOff(node) + 8 <= |node| && NameOk(Inserted(node, rec), NewOff(node), longest)
  {
    hide Inserted, LeafShape, RecOff, NewOff, Records, IsFileRecord, AsciiName, Be16, Be32, ForkAt, KeyMatches;
    LeafBounds(node);
    NewName(node, rec, name, id, fork);
    NewSlot(node, rec, name, id, fork, 0, []);
  }

  /** Creation with at least eight bytes left keeps a bootable volume bootable, unless the new name is one that both
      programs do not read alike. */
  lemma BootableCreated(v: Volume, cat: seq<byte>, files: seq<FileLoc>, rec: seq<byte>, name: seq<byte>, id: nat,
                        fork: Fork, longest: nat)
    requires Bootable(v, cat, longest) && RecordFits(v, cat, files, rec) && IsFileRecord(rec, name, id, fork)
    requires 8 <= Gap(Node(cat, v.nodeSize, v.firstLeaf), |rec|) && 512 <= v.nodeSize
    requires |name| <= NAME_CAP || longest < NAME_CAP
    ensures Bootable(v, Cat2(v, cat, files, rec), longest)
  {
    hide LeafOk, Be32, Be16, OneBlock, Node, Records, LeafShape, Gap, IsFileRecord, NewCatalog, Inserted, Len;
    var cat', ns := Cat2(v, cat, files, rec), v.nodeSize;
    GeometryCreated(v, cat, files, rec);
    forall n | v.firstLeaf <= n <= v.lastLeaf && Len(n + 1, ns) <= |cat'| && IsLeaf(Node(cat', ns, n))
      ensures LeafOk(Node(cat', ns, n), longest)
    {
      NewNode(cat, ns, v.firstLeaf, rec, n);
      if n == v.firstLeaf {
        LeafBounds(Node(cat, ns, n));
        LeafOfShape(Node(cat, ns, n));
        LeafOkCreated(Node(cat, ns, n), rec, name, id, fork, longest);
      }
    }
  }

  lemma LeafOfShape(node: seq<byte>)
    requires LeafShape(node)
    ensures 12 <= |node| && IsLeaf(node)
  {
  }

  /** The header node is not touched. */
  lemma GeometryCreated(v: Volume, cat: seq<byte>, files: seq<FileLoc>, rec: seq<byte>)
    requires BootGeometry(v, cat) && RecordFits(v, cat, files, rec) && 512 <= v.nodeSize
    ensures BootGeometry(v, Cat2(v, cat, files, rec))
  {
    hide LeafShape, Be32, Be16, OneBlock, Node, Records, Gap, Inserted, Patch;
    var node := Inserted(Node(cat, v.nodeSize, v.firstLeaf), rec);
    LenNext(v.firstLeaf, v.nodeSize);
    HeaderFieldsKept(v, cat, FileLoc(v.firstLeaf, 0), node);
  }

  // ---------- end to end ----------

  lemma CreatedReadable(v: Volume, free: nat, img: seq<byte>, free': nat, img': seq<byte>, files: seq<FileLoc>,
                        name: seq<byte>, id: nat, start: nat, payload: seq<byte>)
    requires WellFormed(v, free, img, files) && RecordStorable(v, CatView(v, img), files, name) && payload != []
    requires NewFile(v, free, img, free', img', files, name, id, start, payload) && BootGeometry(v, CatView(v, img))
    ensures var all := files + [NewLoc(v, CatView(v, img), files, name)];
            && WellFormed(v, free', img', all) && BootGeometry(v, CatView(v, img'))
            && all[|files|] == FileLoc(v.firstLeaf, NewData(v, CatView(v, img), files, name) + DATA_FORK_OFF)
            && BootFindParts(CatView(v, img'), v.cat.size, v.nodeSize, v.firstLeaf, v.lastLeaf, [name], ROOT_ID)
            == BootFile(v.firstLeaf, NewData(v, CatView(v, img), files, name))
            && FileFork(v, CatView(v, img'), all[|files|]).size
                == |payload| <= |FileBytes(v, free', img', all, |files|)|
            && FileBytes(v, free', img', all, |files|)[..|payload|] == payload
  {
    hide WellFormed, BootGeometry, BootFindParts, LeafShape, Lookups, FileBytes, FileFork, CatView, IsFileRecord, Cat2,
         Kept, Blocks, CeilDiv, Len, Gap, Records;
    VolumeNodes(v, free, img, files);
    VolumeNodes(v, free', img', files + [NewLoc(v, CatView(v, img), files, name)]);
    var cat, n := CatView(v, img), BlocksFor(v, |payload|);
    var rec :| RecordFits(v, cat, files, rec) && IsFileRecord(rec, name, id, NewFork(|payload|, start, n))
               && CatView(v, img') == Cat2(v, cat, files, rec);
    GeometryCreated(v, cat, files, rec);
    GeometryRange(v, cat);
    BootFindsCreated(v, cat, files, rec, name, id, NewFork(|payload|, start, n));
  }

  lemma VolumeNodes(v: Volume, free: nat, img: seq<byte>, files: seq<FileLoc>)
    requires WellFormed(v, free, img, files)
    ensures Geometry(v, img) && Forks(v) && 512 <= v.nodeSize && 0 < v.blockSize
  {
  }

  /** Create a file on the host, then boot from the image: the booter gets exactly the payload, also when so little is
      left in the leaf that every lookup of the host's raises. */
  method HostCreatesBooterReads(host: HFSPlusImage, path: seq<byte>, payload: seq<byte>, dst: array<byte>, cap: nat,
                                ghost files: seq<FileLoc>)
    returns (written: Creation, ok: bool, size: nat)
    requires WellFormed(host.Vol(), host.freeBlocks, host.image, files)
    requires LeafExpected(host.Vol(), CatView(host.Vol(), host.image), files)
    requires BootGeometry(host.Vol(), CatView(host.Vol(), host.image))
    requires 0 !in path && 0 < |payload| <= cap <= dst.Length
    modifies host`image, host`freeBlocks, dst
    ensures written.Created? <==> CanCreate(host.Vol(), old(host.image), path, |payload|)
    ensures written.Created? ==> ok && size == |payload| && dst[..size] == payload
  {
    hide WellFormed, BootGeometry, BootFindParts, FileBytes, FileFork, CatView, NewFile, CanCreate, LeafExpected,
         CanTake, Leaked, Written, LeafReady, RecordRoom, RecordStorable, Parts, NewLoc, NewData;
    ghost var v, img, free := host.Vol(), host.image, host.freeBlocks;
    written := CreateRootFile(host, path, payload, files);
    ok, size := false, 0;
    if written.Created? {
      VolumeNodes(v, free, img, files);
      CreatePath(v, img, files, path, |payload|);
      ghost var name := Parts(path)[0];
      CreatedReadable(v, free, img, host.freeBlocks, host.image, files, name, written.id, written.start, payload);
      ghost var all := files + [NewLoc(v, CatView(v, img), files, name)];
      ok, size := BootAt(host.image, path, dst, cap, v, host.freeBlocks, all, |files|, v.firstLeaf,
                         NewData(v, CatView(v, img), files, name));
    }
  }

  lemma CreatePath(v: Volume, img: seq<byte>, files: seq<FileLoc>, path: seq<byte>, size: nat)
    requires Geometry(v, img) && Forks(v) && CanCreate(v, img, path, size) && LeafExpected(v, CatView(v, img), files)
    ensures Parts(path) == [Parts(path)[0]] && RecordStorable(v, CatView(v, img), files, Parts(path)[0])
    ensures LeafReady(v, CatView(v, img), files)
  {
    hide LeafReady, NodeRoom;
  }
}
