/** A volume with a folder in its root and a file in the folder, and what creating a file of the folder's name does. */
module HfsFolderWitness {
  import opened Bytes
  import opened Blocking
  import opened HfsExtents
  import opened HfsBitmap
  import opened HfsForkRecord
  import opened HfsCatalog
  import opened HfsVolume
  import opened HfsImage
  import opened HfsCreate
  import opened HfsCreateVolume
  import opened HfsCreateFile
  import opened HfsCreateTouch
  import opened HfsCreateRoot
  import opened HfsWitness

  const FOLDER_ID := 16
  const K: byte := 107
  const F: byte := 102

  /** A leaf with a record of eight bytes at 14, and one at 22: the child `name` of `parent`, of this kind and id. Its
      free space starts at `256 * hi + lo`. */
  function RecordLeafByte(parent: byte, name: byte, kind: byte, id: byte, hi: byte, lo: byte, i: nat): byte {
    match i
    case 8 => LEAF_KIND
    case 11 => 2
    case 23 => 8
    case 27 => parent
    case 29 => 1
    case 31 => name
    case 33 => kind
    case 43 => id
    case 506 => hi
    case 507 => lo
    case 509 => 22
    case 511 => 14
    case _ => 0
  }

  function RecordLeaf(parent: byte, name: byte, kind: byte, id: byte, hi: byte, lo: byte): (node: seq<byte>)
    ensures |node| == 512
  {
    seq(512, i requires 0 <= i => RecordLeafByte(parent, name, kind, id, hi, lo, i))
  }

  lemma RecordLeafFields(parent: byte, name: byte, kind: byte, id: byte, hi: byte, lo: byte)
    ensures var node := RecordLeaf(parent, name, kind, id, hi, lo);
            && node[8] == LEAF_KIND && Be16(node, 10) == 2 && Be16(node, 22) == 8 && Be32(node, 24) == parent
            && Be16(node, 28) == 1 && Be16(node, 30) == name && Be16(node, 32) == kind && Be32(node, 40) == id
            && Be16(node, 506) == 256 * hi + lo && Be16(node, 508) == 22 && Be16(node, 510) == 14
            && forall i :: 44 <= i < 506 ==> node[i] == 0
  {
  }

  /** The one record a scan of the leaf can find. */
  lemma RecordLeafScan(node: seq<byte>, parent: byte, name: byte, kind: byte, id: byte, hi: byte, lo: byte, n: nat,
                       p: nat, t: seq<byte>)
    requires node == RecordLeaf(parent, name, kind, id, hi, lo) && 44 <= 256 * hi + lo <= 498 && 0 < name < 128
    requires t != []
    ensures ScanNode(n, node, p, t, 0) == if p == parent && t == [name] then Hit(n, 32, kind) else Miss
  {
    hide RecordLeaf, Be16, Be32;
    RecordLeafFields(parent, name, kind, id, hi, lo);
    var free := 256 * hi + lo;
    assert RecOff(node, 0) == free && RecOff(node, 1) == 22;
    ZeroSlot(node, free, p, t);
    assert AsciiName(node, 30, 1) == [name];
    assert ScanNode(n, node, p, t, 2) == Miss;
    assert ScanNode(n, node, p, t, 1) == if p == parent && t == [name] then Hit(n, 32, kind) else Miss;
  }

  /** `/k`, a folder with 88 bytes of data, and in the second leaf `/k/f`, an empty file with 248. */
  function WithFolder(): (l: Leaves)
    ensures LeavesFit(l)
  {
    Leaves(RecordLeaf(ROOT_ID, K, FOLDER_RECORD, FOLDER_ID, 0, 120), RecordLeaf(FOLDER_ID, F, FILE_RECORD, 0, 1, 24), 2)
  }

  const FILE := FileLoc(2, 120)

  lemma FolderShape()
    ensures LeafShape(WithFolder().a) && RecOff(WithFolder().a, 0) == 120 && Gap(WithFolder().a, 258) == 126
  {
    hide RecordLeaf, Be16, Be32;
    var node := WithFolder().a;
    RecordLeafFields(ROOT_ID, K, FOLDER_RECORD, FOLDER_ID, 0, 120);
    assert RecOff(node, 0) == 120 && RecOff(node, 1) == 22 && RecOff(node, 2) == 14;
  }

  ghost function Cat(): seq<byte> {
    SmallForks(WithFolder());
    CatView(Small(2), SmallImage(WithFolder()))
  }

  lemma FolderScan(p: nat, t: seq<byte>)
    requires t != []
    ensures ScanFrom(Cat(), 512, 1, 2, p, t)
         == if p == ROOT_ID && t == [K] then Hit(1, 32, FOLDER_RECORD)
            else if p == FOLDER_ID && t == [F] then Hit(2, 32, FILE_RECORD)
            else Miss
  {
    hide SmallImage, CatView, ScanNode, Len, Node, RecordLeaf;
    var l := WithFolder();
    SmallCatalog(l);
    RecordLeafFields(ROOT_ID, K, FOLDER_RECORD, FOLDER_ID, 0, 120);
    RecordLeafFields(FOLDER_ID, F, FILE_RECORD, 0, 1, 24);
    RecordLeafScan(l.a, ROOT_ID, K, FOLDER_RECORD, FOLDER_ID, 0, 120, 1, p, t);
    RecordLeafScan(l.b, FOLDER_ID, F, FILE_RECORD, 0, 1, 24, 2, p, t);
    assert ScanFrom(Cat(), 512, 3, 2, p, t) == Miss;
    assert ScanFrom(Cat(), 512, 2, 2, p, t) == if p == FOLDER_ID && t == [F] then Hit(2, 32, FILE_RECORD) else Miss;
  }

  /** The file's fork record is clear of everything the scan reads, and empty. */
  lemma FileWindow()
    ensures WindowClear(Cat(), 512, 2, 120, FORK_SIZE) && FileBlocks(Small(2), Cat(), FILE) == []
  {
    hide SmallImage, CatView, RecordLeaf, Be16, Be32;
    var l := WithFolder();
    SmallCatalog(l);
    RecordLeafFields(FOLDER_ID, F, FILE_RECORD, 0, 1, 24);
    var node := l.b;
    assert RecOff(node, 0) == 280 && RecOff(node, 1) == 22;
    ZeroSlot(node, 280, 0, [1]);
    assert Be16(node, 280) == 0 by {
      ZeroHalf(node, 280);
    }
    assert Clear(node, 120, 200);
    EmptyFork(node, 120);
    SubSlice(Cat(), 1024, node, 120, FORK_SIZE);
    SameFork(Cat(), 1144, node, 120);
  }

  lemma ZeroHalf(b: seq<byte>, o: nat)
    requires o + 2 <= |b| && b[o] == b[o + 1] == 0
    ensures Be16(b, o) == 0
  {
  }

  lemma EmptyFork(b: seq<byte>, o: nat)
    requires o + FORK_SIZE <= |b| && forall i :: o <= i < o + FORK_SIZE ==> b[i] == 0
    ensures ForkAt(b, o).extents == [] && Blocks([]) == []
  {
    hide Be32, Be64;
    var s := b[o + 16..o + FORK_SIZE];
    forall i | 0 <= i < 8 ensures ExtentAt(s, 8 * i) == Extent(0, 0) {
      ZeroField(s, 8 * i);
      ZeroField(s, 8 * i + 4);
    }
    assert RawExtents(b, o) == [] + ZeroExtents(8);
    NonEmptyPad([], ZeroExtents(8));
  }

  lemma FolderWellFormed()
    ensures WellFormed(Small(2), 1, SmallImage(WithFolder()), [FILE])
  {
    hide SmallImage, CatView, Ownership, FreeSet, HeaderOk, Header, ScanFrom, Geometry, Forks, Bitmap, Len, Node,
         WindowClear, FileBlocks, WithFolder;
    FolderLast();
    SmallHeader(WithFolder());
    SmallForks(WithFolder());
    FileWindow();
    SmallOwners(WithFolder(), [FILE]);
    forall p: nat, t: seq<byte> ensures Listed(Small(2), Cat(), [FILE], p, t) {
      if t != [] {
        FolderScan(p, t);
      }
    }
  }

  lemma FolderLast()
    ensures WithFolder().last == 2
  {
  }

  lemma FolderPaths()
    ensures Parts([SLASH, K]) == [[K]] && Parts([SLASH, K, SLASH, F]) == [[K], [F]]
  {
    var p, q := [SLASH, K, SLASH, F], [K, SLASH, F];
    assert p[1..] == q && q[1..] == [SLASH, F] && q[2..] == [F];
    assert CompLen(q) == 1 && q[..1] == [K] && [SLASH, F][1..] == [F];
    OnePart([F]);
    OnePart([K]);
    assert [SLASH, K][1..] == [K];
    assert Parts([SLASH, F]) == Parts([F]);
  }

  const FOLDER_PATH: seq<byte> := [SLASH, K]
  const FILE_PATH: seq<byte> := [SLASH, K, SLASH, F]

  /** The file is found, by way of the folder. */
  lemma FileFound()
    ensures FindFileSpec(Cat(), 512, 1, 2, FILE_PATH) == File(2, 32)
    ensures Asks(Cat(), 512, 1, 2, Parts(FILE_PATH), ROOT_ID, [K])
  {
    hide Cat, ScanFrom, Len, Node, WithFolder, Be32, Parts;
    FolderPaths();
    FolderScan(ROOT_ID, [K]);
    FolderScan(FOLDER_ID, [F]);
    FolderId();
    var rest := [[K], [F]][1..];
    assert rest == [[F]];
    assert FindParts(Cat(), 512, 1, 2, rest, FOLDER_ID) == File(2, 32);
  }

  /** The folder's name is free for the tool, and there is room for the record. */
  lemma FolderCreate()
    ensures Geometry(Small(2), SmallImage(WithFolder())) && Forks(Small(2))
    ensures LeafReady(Small(2), Cat(), [FILE]) && LeafExpected(Small(2), Cat(), [FILE])
    ensures CanCreate(Small(2), SmallImage(WithFolder()), FOLDER_PATH, 1)
    ensures RecordStorable(Small(2), Cat(), [FILE], [K]) && NewGap(Small(2), Cat(), [FILE], [K]) == 126
  {
    hide SmallImage, CatView, Header, ScanFrom, LeafShape, Geometry, Forks, Bitmap, Len, Node, IsUsed, RecOff,
         CountersFit, WithFolder, Parts, HeaderOk;
    FolderLast();
    FolderShape();
    FolderPaths();
    FolderId();
    SmallHeader(WithFolder());
    SmallCatalog(WithFolder());
    SmallBitmap(WithFolder());
    SmallBits();
    FolderScan(ROOT_ID, [K]);
    assert CeilDiv(1, 4096) == 1 && Wanted(Small(2), 1) == 1;
    assert FreeRunAt(Small(2), [0xE0], 3, 1);
  }

  lemma FolderId()
    ensures IsLeaf(WithFolder().a) && |Cat()| == 4096 && Len(2, 512) == 1024
    ensures Be32(Node(Cat(), 512, 1), 40) == FOLDER_ID
  {
    hide SmallImage, CatView, RecordLeaf;
    SmallCatalog(WithFolder());
    RecordLeafFields(ROOT_ID, K, FOLDER_RECORD, FOLDER_ID, 0, 120);
  }

  lemma FolderMount()
    ensures CanMount(SmallImage(WithFolder()))
  {
    hide SmallImage, Header, WithFolder, Existing, ForkAt;
    SmallHeader(WithFolder());
    SmallForks(WithFolder());
    OneBlockView(SmallImage(WithFolder()), 2);
    assert Len(1, 4096) == 4096;
    ExistingAll(SmallImage(WithFolder()), 4096, [2], 0, HEADER_NODE);
  }

  lemma MountedAs(v: Volume, free: nat)
    requires HeaderOk(v, free, Header(SmallImage(WithFolder())))
    requires CatBlocks(v) == [2] && 0 < v.blockSize && InImage(SmallImage(WithFolder()), v.blockSize, [2]) ==>
               LeafInfo(v, View(SmallImage(WithFolder()), v.blockSize, [2]))
    ensures v == Small(2) && free == 1
  {
    hide SmallImage, Header, WithFolder, ForkAt, View;
    FolderLast();
    SmallHeader(WithFolder());
    SmallForks(WithFolder());
    SmallCatalog(WithFolder());
    OneBlockView(SmallImage(WithFolder()), 2);
  }

  /** The tool on that volume: `/k/f` is found, the creation of `/k` succeeds, and `/k/f` is lost. */
  method HideFolder() returns (before: Find, made: Creation, after: Find)
    ensures before == File(2, 32) && made.Created? && after == Failed(RuntimeError)
  {
    hide SmallImage, WithFolder, HeaderOk, Header, View, LeafFields, CanMount, Existing, InImage, CatBlocks, Small;
    FolderMount();
    var hfs := new HFSPlusImage(SmallImage(WithFolder()));
    var ok := hfs.Mount();
    MountedAs(hfs.Vol(), hfs.freeBlocks);
    before, made, after := LoseFile(hfs);
  }

  method LoseFile(hfs: HFSPlusImage) returns (before: Find, made: Creation, after: Find)
    requires hfs.Vol() == Small(2) && hfs.freeBlocks == 1 && hfs.image == SmallImage(WithFolder())
    modifies hfs`image, hfs`freeBlocks
    ensures before == File(2, 32) && made.Created? && after == Failed(RuntimeError)
  {
    hide SmallImage, Ownership, HitsListed, Locs, FreeSet, HeaderOk, Header, Geometry, Forks, CanCreate, LeafExpected,
         CanTake,
         Leaked, WithFolder, Parts, FindParts, NewFile, RecordStorable, CatView, Written, LeafReady, RecordRoom, Cat;
    FolderWellFormed();
    FolderCreate();
    FolderPaths();
    FileFound();
    CatIs();
    var node;
    before, node := hfs.FindFile(FILE_PATH);
    made := CreateRootFile(hfs, FOLDER_PATH, [1], [FILE]);
    FileLost(hfs.freeBlocks, hfs.image, made.id, made.start);
    after, node := hfs.FindFile(FILE_PATH);
  }

  lemma CatIs()
    ensures Geometry(Small(2), SmallImage(WithFolder())) && Forks(Small(2))
    ensures CatView(Small(2), SmallImage(WithFolder())) == Cat()
  {
    hide CatView, Geometry, Forks;
    FolderLast();
    SmallForks(WithFolder());
  }

  lemma FileLost(free: nat, img: seq<byte>, id: nat, start: nat)
    requires WellFormed(Small(2), 1, SmallImage(WithFolder()), [FILE])
    requires RecordStorable(Small(2), CatView(Small(2), SmallImage(WithFolder())), [FILE], [K])
    requires NewFile(Small(2), 1, SmallImage(WithFolder()), free, img, [FILE], [K], id, start, [1])
    ensures Geometry(Small(2), img) && Forks(Small(2))
    ensures FindFileSpec(CatView(Small(2), img), 512, 1, 2, FILE_PATH) == Failed(RuntimeError)
  {
    hide SmallImage, Geometry, Forks, Header, CanCreate, WithFolder, Parts, FindParts, RecordStorable, NewGap, Asks,
         WellFormed, Added, Stored, Lookups, CatView, NewFile;
    FolderCreate();
    FolderPaths();
    FileFound();
    CatIs();
    StillMounted(Small(2), 1, SmallImage(WithFolder()), free, img, [FILE], [K], id, start, [1]);
    PathKeptExact(Small(2), 1, SmallImage(WithFolder()), free, img, [FILE], FOLDER_PATH, id, start, [1], FILE_PATH);
  }

  lemma StillMounted(v: Volume, free: nat, img: seq<byte>, free': nat, img': seq<byte>, files: seq<FileLoc>,
                     name: seq<byte>, id: nat, start: nat, payload: seq<byte>)
    requires WellFormed(v, free, img, files) && RecordStorable(v, CatView(v, img), files, name)
    requires NewFile(v, free, img, free', img', files, name, id, start, payload)
    ensures Geometry(v, img') && Forks(v)
  {
    hide Lookups, Stored, FileBytes, FileFork, Kept, Ownership, HitsListed, Locs, FreeSet, HeaderOk, LeafShape;
  }
}
