/** Small volumes that meet the assumptions of the other modules, and one that the booter mounts wrongly. */
module HfsWitness {
  import opened Bytes
  import opened Blocking
  import opened HfsExtents
  import opened HfsBitmap
  import opened HfsForkRecord
  import opened HfsCatalog
  import opened HfsVolume
  import opened HfsCreate
  import opened HfsCreateVolume
  import opened HfsCreateTouch
  import opened HfsCreateRoot
  import opened HfsBootCatalog
  import opened HfsBoot
  import opened HfsRoundTrip

  // ---------- an empty leaf ----------

  /** A 512-byte leaf with one record, at offset 14, and its free space at `free`. */
  function LeafByte(free: byte, i: nat): byte {
    match i
    case 8 => LEAF_KIND
    case 11 => 1
    case 509 => free
    case 511 => 14
    case _ => 0
  }

  function SmallLeaf(free: byte): (node: seq<byte>)
    ensures |node| == 512
  {
    seq(512, i requires 0 <= i => LeafByte(free, i))
  }

  lemma SmallLeafShape(free: byte)
    requires 22 <= free && free % 2 == 0
    ensures LeafShape(SmallLeaf(free)) && Records(SmallLeaf(free)) == 1 && RecOff(SmallLeaf(free), 0) == free
    ensures Gap(SmallLeaf(free), 258) == 248 - free
  {
    var node := SmallLeaf(free);
    assert node[8] == LEAF_KIND && Be16(node, 10) == 1 && Be16(node, 508) == free && Be16(node, 510) == 14;
  }

  /** Both ends of the rule about eight bytes are met: a record with a one-character name leaves nothing in the one
      leaf and plenty in the other. */
  lemma GapsExist()
    ensures LeafShape(SmallLeaf(248)) && Gap(SmallLeaf(248), 258) == 0
    ensures LeafShape(SmallLeaf(22)) && Gap(SmallLeaf(22), 258) == 226
  {
    SmallLeafShape(248);
    SmallLeafShape(22);
  }

  // ---------- a whole volume ----------

  /** The two catalog nodes behind the header node, and the last one the header calls a leaf. */
  datatype Leaves = Leaves(a: seq<byte>, b: seq<byte>, last: byte)

  predicate LeavesFit(l: Leaves) {
    |l.a| == |l.b| == 512 && 1 <= l.last <= 2
  }

  /** Four blocks of 4096 bytes: header, bitmap, catalog, one free. */
  function VolumeByte(l: Leaves, i: nat): byte
    requires LeavesFit(l)
  {
    if 8704 <= i < 9216 then l.a[i - 8704]
    else if 9216 <= i < 9728 then l.b[i - 9216]
    else
      match i
      case 1024 => 0x48
      case 1025 => 0x2B
      case 1066 => 0x10
      case 1071 => 4
      case 1075 => 1
      case 1143 => 1
      case 1155 => 1
      case 1159 => 1
      case 1302 => 0x10
      case 1315 => 2
      case 1319 => 1
      case 4096 => 0xE0
      case 8219 => 1
      case 8223 => l.last
      case 8224 => 2
      case 8231 => 8
      case _ => 0
  }

  function SmallImage(l: Leaves): (img: seq<byte>)
    requires LeavesFit(l)
    ensures |img| == 16384
  {
    seq(16384, i requires 0 <= i => VolumeByte(l, i))
  }

  function Small(last: nat): Volume {
    Volume(4096, 4, Fork(1, [Extent(1, 1)]), Fork(4096, [Extent(2, 1)]), 512, 1, last)
  }

  /** A fork record with one extent. */
  lemma OneExtentFork(b: seq<byte>, o: nat, size: nat, start: nat)
    requires o + FORK_SIZE <= |b| && Be64(b, o) == size && Be32(b, o + 16) == start && 0 < Be32(b, o + 20)
    requires forall i :: o + 24 <= i < o + FORK_SIZE ==> b[i] == 0
    ensures ForkAt(b, o) == Fork(size, [Extent(start, Be32(b, o + 20))])
    ensures Blocks(RawExtents(b, o)) == Run(start, Be32(b, o + 20))
  {
    hide Be32, Be64, NonEmpty, Blocks;
    var s, e := b[o + 16..o + FORK_SIZE], Extent(start, Be32(b, o + 20));
    SlotFields(b, o + 16, s);
    forall i | 0 <= i < 8 ensures ExtentAt(s, 8 * i) == ([e] + ZeroExtents(7))[i] {
      if i > 0 {
        ZeroField(s, 8 * i);
        ZeroField(s, 8 * i + 4);
      }
    }
    assert RawExtents(b, o) == [e] + ZeroExtents(7);
    NonEmptyPad([e], ZeroExtents(7));
    NonEmptyBlocks([e] + ZeroExtents(7));
    OneOnly(e);
  }

  lemma SlotFields(b: seq<byte>, o: nat, s: seq<byte>)
    requires o + 64 <= |b| && s == b[o..o + 64]
    ensures Be32(s, 0) == Be32(b, o) && Be32(s, 4) == Be32(b, o + 4)
  {
  }

  lemma OneOnly(e: Extent)
    requires e.count != 0
    ensures NonEmpty([e]) == [e] && Blocks([e]) == Run(e.start, e.count)
  {
    assert [e][1..] == [];
  }

  lemma SmallByte(l: Leaves, i: nat)
    requires LeavesFit(l) && i < HDR_LEN
    ensures Header(SmallImage(l))[i] == VolumeByte(l, HDR_OFF + i)
  {
  }

  lemma SmallBytes(l: Leaves)
    requires LeavesFit(l)
    ensures forall i :: 0 <= i < HDR_LEN ==> Header(SmallImage(l))[i] == VolumeByte(l, HDR_OFF + i)
  {
    hide VolumeByte, SmallImage;
    forall i | 0 <= i < HDR_LEN ensures Header(SmallImage(l))[i] == VolumeByte(l, HDR_OFF + i) {
      SmallByte(l, i);
    }
  }

  lemma SmallAlloc(l: Leaves)
    requires LeavesFit(l)
    ensures ForkAt(Header(SmallImage(l)), ALLOCATION_FILE_OFF) == Small(l.last).alloc
  {
    hide ForkAt, SmallImage, Header;
    SmallBytes(l);
    OneExtentFork(Header(SmallImage(l)), ALLOCATION_FILE_OFF, 1, 1);
  }

  lemma SmallCat(l: Leaves)
    requires LeavesFit(l)
    ensures ForkAt(Header(SmallImage(l)), CATALOG_FILE_OFF) == Small(l.last).cat
  {
    hide ForkAt, SmallImage, Header;
    SmallBytes(l);
    OneExtentFork(Header(SmallImage(l)), CATALOG_FILE_OFF, 4096, 2);
  }

  lemma SmallHeader(l: Leaves)
    requires LeavesFit(l)
    ensures HeaderOk(Small(l.last), 1, Header(SmallImage(l))) && CountersFit(Header(SmallImage(l)))
  {
    hide ForkAt, SmallImage, Header;
    SmallBytes(l);
    SmallAlloc(l);
    SmallCat(l);
  }

  lemma SmallForks(l: Leaves)
    requires LeavesFit(l)
    ensures Geometry(Small(l.last), SmallImage(l)) && Forks(Small(l.last)) && AllocBlocks(Small(l.last)) == [1]
    ensures CatBlocks(Small(l.last)) == [2]
    ensures HdrBlock(Small(l.last)) == 0
  {
    hide SmallImage;
    assert Len(4, 4096) == 16384;
    OneOnly(Extent(1, 1));
    OneOnly(Extent(2, 1));
    assert Run(1, 1) == [1] && Run(2, 1) == [2];
  }

  /** A one-block fork is that block of the image. */
  lemma OneBlockView(img: seq<byte>, b: nat)
    requires |img| == 16384 && b < 4
    ensures InImage(img, 4096, [b]) && |View(img, 4096, [b])| == 4096
    ensures forall i :: 0 <= i < 4096 ==> View(img, 4096, [b])[i] == img[4096 * b + i]
  {
    assert Len(4, 4096) == 16384 && Len(1, 4096) == 4096;
    LenMono(b + 1, 4, 4096);
    LenMul(b, 4096);
    var view := View(img, 4096, [b]);
    forall i | 0 <= i < 4096 ensures view[i] == img[4096 * b + i] {
      assert view[i] == ByteAt(img, 4096, [b], i);
    }
  }

  lemma SmallCatBytes(l: Leaves)
    requires LeavesFit(l)
    ensures Geometry(Small(l.last), SmallImage(l)) && Forks(Small(l.last))
    ensures |CatView(Small(l.last), SmallImage(l))| == 4096
    ensures forall i :: 0 <= i < 4096 ==> CatView(Small(l.last), SmallImage(l))[i] == VolumeByte(l, 8192 + i)
  {
    hide Geometry, Forks, View, CatBlocks, VolumeByte;
    SmallForks(l);
    OneBlockView(SmallImage(l), 2);
  }

  lemma SmallCatalog(l: Leaves)
    requires LeavesFit(l)
    ensures Geometry(Small(l.last), SmallImage(l)) && Forks(Small(l.last))
    ensures var cat := CatView(Small(l.last), SmallImage(l));
            && |cat| == 4096 && Len(2, 512) == 1024 && Len(3, 512) == 1536
            && Node(cat, 512, 1) == l.a && Node(cat, 512, 2) == l.b
            && Be32(cat, FIRST_LEAF_OFF) == 1 && Be32(cat, LAST_LEAF_OFF) == l.last
            && Be16(cat, NODE_SIZE_OFF) == 512 && Be32(cat, TOTAL_NODES_OFF) == 8
  {
    hide Geometry, Forks, CatView, SmallImage;
    SmallCatBytes(l);
    var cat := CatView(Small(l.last), SmallImage(l));
    assert Len(1, 512) == 512 && Len(2, 512) == 1024 && Len(3, 512) == 1536;
    var m, n := Node(cat, 512, 1), Node(cat, 512, 2);
    forall i | 0 <= i < 512 ensures m[i] == l.a[i] && n[i] == l.b[i] {
      assert m[i] == cat[512 + i] == VolumeByte(l, 8704 + i);
      assert n[i] == cat[1024 + i] == VolumeByte(l, 9216 + i);
    }
  }

  lemma SmallBitmap(l: Leaves)
    requires LeavesFit(l)
    ensures Geometry(Small(l.last), SmallImage(l)) && Forks(Small(l.last))
    ensures Bitmap(Small(l.last), SmallImage(l)) == [0xE0]
  {
    hide Geometry, Forks, View, AllocBlocks;
    SmallForks(l);
    OneBlockView(SmallImage(l), 1);
  }

  lemma SmallBits()
    ensures IsUsed([0xE0], 0) && IsUsed([0xE0], 1) && IsUsed([0xE0], 2) && !IsUsed([0xE0], 3)
  {
    forall k: nat | k < 4 ensures Bit(0xE0, k + 4) == Bit(14, k) {
      BitDouble(14, k);
      BitDouble(28, k + 1);
      BitDouble(56, k + 2);
      BitDouble(112, k + 3);
    }
    assert !Bit(14, 0);
    BitDouble(7, 0);
    BitDouble(7, 1);
    BitDouble(7, 2);
    assert Bit(7, 0) && Bit(7, 1) == Bit(3, 0) && Bit(7, 2) == Bit(3, 1) == Bit(1, 0);
    assert Bit(0xE0, 7) == Bit(0xE0, 3 + 4) && Bit(0xE0, 6) == Bit(0xE0, 2 + 4) && Bit(0xE0, 5) == Bit(0xE0, 1 + 4);
  }

  lemma BitDouble(x: nat, k: nat)
    ensures Bit(2 * x, k + 1) == Bit(x, k)
  {
  }

  /** Files without blocks own nothing, so header, bitmap and catalog own blocks 0, 1 and 2, and block 3 is free. */
  lemma SmallOwners(l: Leaves, files: seq<FileLoc>)
    requires LeavesFit(l)
    requires var cat := (SmallForks(l); CatView(Small(l.last), SmallImage(l)));
             Locs(Small(l.last), cat, files) && forall f :: f in files ==> FileBlocks(Small(l.last), cat, f) == []
    ensures Geometry(Small(l.last), SmallImage(l)) && Forks(Small(l.last))
    ensures Ownership(Small(l.last), CatView(Small(l.last), SmallImage(l)), files, Bitmap(Small(l.last), SmallImage(l)))
    ensures |FreeSet(Bitmap(Small(l.last), SmallImage(l)), 4)| == 1
  {
    hide SmallImage, CatView, IsUsed, AllocBlocks, CatBlocks, HdrBlock, FileBlocks, Locs, Bitmap;
    SmallForks(l);
    SmallBitmap(l);
    SmallBits();
    var v, cat, bm := Small(l.last), CatView(Small(l.last), SmallImage(l)), Bitmap(Small(l.last), SmallImage(l));
    forall i: nat | i < 3 + |files|
      ensures OwnerOk(v, cat, files, bm, i) && Owned(v, cat, files, i) == if i < 3 then [i] else []
    {
      assert i >= 3 ==> files[i - 3] in files;
    }
    assert FreeSet(bm, 4) == {3};
  }

  // ---------- an empty volume ----------

  function Empty(free: byte): (l: Leaves)
    ensures LeavesFit(l)
  {
    Leaves(SmallLeaf(free), Zeros(512), 1)
  }

  /** Nothing is found on it. */
  lemma {:induction false} SmallScan(free: byte, p: nat, t: seq<byte>)
    requires 22 <= free <= 248 && free % 2 == 0 && t != []
    ensures Geometry(Small(1), SmallImage(Empty(free))) && Forks(Small(1))
    ensures ScanFrom(CatView(Small(1), SmallImage(Empty(free))), 512, 1, 1, p, t) == Miss
  {
    hide LeafShape, SmallImage, SmallLeaf, CatView, Node, KeyMatches, Len;
    SmallCatalog(Empty(free));
    SmallLeafShape(free);
    LeafOfSmall(free);
    var cat, node := CatView(Small(1), SmallImage(Empty(free))), SmallLeaf(free);
    ZeroSlot(node, free, p, t);
    assert ScanNode(1, node, p, t, 1) == Miss;
    assert ScanNode(1, node, p, t, 0) == Miss;
    assert ScanFrom(cat, 512, 2, 1, p, t) == Miss;
  }

  lemma LeafOfSmall(free: byte)
    requires 22 <= free <= 248
    ensures IsLeaf(SmallLeaf(free)) && SlotInNode(SmallLeaf(free), 0)
    ensures forall i :: free <= i < 508 ==> SmallLeaf(free)[i] == 0
  {
  }

  lemma SmallWellFormed(free: byte)
    requires 22 <= free <= 248 && free % 2 == 0
    ensures WellFormed(Small(1), 1, SmallImage(Empty(free)), [])
  {
    hide SmallImage, CatView, Ownership, FreeSet, HeaderOk, Header, ScanFrom, Geometry, Forks, Bitmap, Len, Node;
    SmallHeader(Empty(free));
    SmallOwners(Empty(free), []);
    forall p: nat, t: seq<byte> ensures Listed(Small(1), CatView(Small(1), SmallImage(Empty(free))), [], p, t) {
      if t != [] {
        SmallScan(free, p, t);
      }
    }
  }

  lemma SmallBootable(free: byte)
    requires 22 <= free <= 248 && free % 2 == 0
    ensures Geometry(Small(1), SmallImage(Empty(free))) && Forks(Small(1))
    ensures Bootable(Small(1), CatView(Small(1), SmallImage(Empty(free))), NAME_CAP)
    ensures LeafReady(Small(1), CatView(Small(1), SmallImage(Empty(free))), [])
  {
    hide SmallImage, CatView, LeafShape, SmallLeaf, Geometry, Forks, Node, Be32, Be16, SlotPos;
    SmallCatalog(Empty(free));
    SmallLeafShape(free);
    LeafOfSmall(free);
    SmallLeafOk(free);
    assert Len(4, 8) == 32 && Len(2, 512) == 1024 && Len(1, 512) == 512 && OneBlock(4096, 512, 1);
  }

  lemma SmallLeafOk(free: byte)
    requires 22 <= free <= 248 && free % 2 == 0
    ensures LeafOk(SmallLeaf(free), NAME_CAP)
  {
    hide SmallLeaf, LeafShape, SlotPos;
    SmallLeafShape(free);
    LeafOfSmall(free);
    ZeroSlot(SmallLeaf(free), free, 0, [1]);
  }

  lemma SmallTake(free: byte, name: byte)
    requires 22 <= free <= 248 && free % 2 == 0 && name != SLASH
    ensures Geometry(Small(1), SmallImage(Empty(free))) && Forks(Small(1)) && Parts([SLASH, name]) == [[name]]
    ensures CanTake(Small(1), SmallImage(Empty(free)), [SLASH, name], 1)
  {
    hide SmallImage, CatView, ScanFrom, Geometry, Forks, Bitmap, IsUsed;
    var path := [SLASH, name];
    SmallBitmap(Empty(free));
    SmallBits();
    SmallScan(free, ROOT_ID, [name]);
    OnePart([name]);
    assert path[1..] == [name] && Parts(path) == Parts(path[1..]);
    assert CeilDiv(1, 4096) == 1 && Wanted(Small(1), 1) == 1;
    assert FreeRunAt(Small(1), [0xE0], 3, 1);
  }

  /** A volume that meets every assumption of replacement, creation and booting, at both ends of the rule about the
      eight bytes: creation of a file with a one-character name goes through, and leaves `248 - free` bytes. */
  lemma SmallVolume(free: byte, name: byte)
    requires 22 <= free <= 248 && free % 2 == 0 && 0 < name < 128 && name != SLASH
    ensures var img, path := SmallImage(Empty(free)), [SLASH, name];
            && WellFormed(Small(1), 1, img, []) && Bootable(Small(1), CatView(Small(1), img), NAME_CAP)
            && LeafExpected(Small(1), CatView(Small(1), img), []) && Parts(path) == [[name]]
            && CanCreate(Small(1), img, path, 1)
                && NewGap(Small(1), CatView(Small(1), img), [], [name]) == 248 - free
  {
    hide SmallImage, CatView, Ownership, FreeSet, HeaderOk, Header, ScanFrom, LeafShape, SmallLeaf, Geometry, Forks,
         Bitmap, Len, Node, IsUsed, WellFormed, Bootable, RecOff, CountersFit;
    SmallWellFormed(free);
    SmallBootable(free);
    SmallHeader(Empty(free));
    SmallCatalog(Empty(free));
    SmallTake(free, name);
    SmallLeafShape(free);
    LeafOfSmall(free);
  }

  /** A volume on which the tool takes a run and then fails: the name is not ASCII. */
  lemma LeakWitness(free: byte, name: byte)
    requires 22 <= free <= 248 && free % 2 == 0 && 128 <= name
    ensures var img, path := SmallImage(Empty(free)), [SLASH, name];
            && WellFormed(Small(1), 1, img, []) && LeafExpected(Small(1), CatView(Small(1), img), [])
            && CanTake(Small(1), img, path, 1) && !CanCreate(Small(1), img, path, 1)
  {
    hide SmallImage, CatView, Ownership, FreeSet, HeaderOk, Header, ScanFrom, LeafShape, SmallLeaf, Geometry, Forks,
         Bitmap, Len, Node, IsUsed, WellFormed, RecOff, CountersFit;
    SmallWellFormed(free);
    SmallBootable(free);
    SmallTake(free, name);
  }
}
