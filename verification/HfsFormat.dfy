/**
  The on-disk structures of HFS Plus as Apple's Technical Note TN1150 lays them out, field by field, and
  what the tools read from them and write to them.
  */
module HfsFormat {
  import opened Bytes
  import opened Blocking
  import opened Layout
  import opened HfsExtents
  import opened HfsForkRecord
  import opened HfsCatalog
  import opened HfsVolume
  import opened HfsBootCatalog
  import opened HfsCreate
  import opened HfsCreateFile
  import opened HfsCreateTouch

  // ---------- the volume header ----------

  datatype HeaderField =
    | Signature | Version | Attributes | LastMounted | JournalInfo | CreateDate | ModifyDate | BackupDate | CheckedDate
    | FileCount | FolderCount | BlockSize | TotalBlocks | FreeBlocks | NextAllocation | RsrcClumpSize | DataClumpSize
    | NextCatalogId | WriteCount | Encodings | FinderInfo
    | AllocationFile | ExtentsFile | CatalogFile | AttributesFile | StartupFile

  const VOLUME_HEADER: seq<Slot<HeaderField>> := [
    Slot(Signature, 2), Slot(Version, 2), Slot(Attributes, 4), Slot(LastMounted, 4), Slot(JournalInfo, 4),
    Slot(CreateDate, 4), Slot(ModifyDate, 4), Slot(BackupDate, 4), Slot(CheckedDate, 4), Slot(FileCount, 4),
    Slot(FolderCount, 4), Slot(BlockSize, 4), Slot(TotalBlocks, 4), Slot(FreeBlocks, 4), Slot(NextAllocation, 4),
    Slot(RsrcClumpSize, 4), Slot(DataClumpSize, 4), Slot(NextCatalogId, 4), Slot(WriteCount, 4), Slot(Encodings, 8),
    Slot(FinderInfo, 32), Slot(AllocationFile, 80), Slot(ExtentsFile, 80), Slot(CatalogFile, 80),
    Slot(AttributesFile, 80), Slot(StartupFile, 80)]

  lemma HeaderStarts()
    ensures |VOLUME_HEADER| == 26 && Start(VOLUME_HEADER, 26) == 512
    ensures Start(VOLUME_HEADER, 0) == 0 && Start(VOLUME_HEADER, 9) == 32 && Start(VOLUME_HEADER, 11) == 40
    ensures Start(VOLUME_HEADER, 12) == 44 && Start(VOLUME_HEADER, 13) == 48 && Start(VOLUME_HEADER, 16) == 60
    ensures Start(VOLUME_HEADER, 17) == 64 && Start(VOLUME_HEADER, 21) == 112 && Start(VOLUME_HEADER, 23) == 272
  {
    assert Start(VOLUME_HEADER, 4) == 12 && Start(VOLUME_HEADER, 8) == 28 && Start(VOLUME_HEADER, 12) == 44;
    assert Start(VOLUME_HEADER, 16) == 60 && Start(VOLUME_HEADER, 20) == 80 && Start(VOLUME_HEADER, 23) == 272;
  }

  ghost predicate HeaderFits(h: HeaderField -> nat) {
    && h(Signature) < TWO16 && h(FileCount) < TWO32 && h(BlockSize) < TWO32 && h(TotalBlocks) < TWO32
    && h(FreeBlocks) < TWO32 && h(DataClumpSize) < TWO32 && h(NextCatalogId) < TWO32
  }

  /** The fork record stored in an 80-byte field. */
  ghost function ForkIn(v: nat): Fork {
    ForkAt(BeBytes(80, v), 0)
  }

  /** The volume the tool takes a header for. */
  lemma HeaderRead(b: seq<byte>, h: HeaderField -> nat, v: Volume, free: nat)
    requires |b| == HDR_LEN && Holds(b, 0, VOLUME_HEADER, h, true) && HeaderFits(h)
    ensures HeaderOk(v, free, b) <==>
              && (BeBytes(2, h(Signature)) == ['H' as int, '+' as int] || BeBytes(2, h(Signature))
                  == ['H' as int, 'X' as int])
              && v.blockSize == h(BlockSize) && v.totalBlocks == h(TotalBlocks) && free == h(FreeBlocks)
              && v.alloc == ForkIn(h(AllocationFile)) && v.cat == ForkIn(h(CatalogFile))
  {
    hide Packed, Start, Be16, Be32, Holds, Number, BeBytes, ForkAt;
    HeaderStarts();
    ReadSlot(b, 0, VOLUME_HEADER, h, true, 0);
    ReadSlot(b, 0, VOLUME_HEADER, h, true, 11);
    ReadSlot(b, 0, VOLUME_HEADER, h, true, 12);
    ReadSlot(b, 0, VOLUME_HEADER, h, true, 13);
    ForkField(b, h, 21);
    ForkField(b, h, 23);
    SignatureBytes(h(Signature));
  }

  lemma ForkField(b: seq<byte>, h: HeaderField -> nat, i: nat)
    requires |b| == HDR_LEN && Holds(b, 0, VOLUME_HEADER, h, true) && (i == 21 || i == 23)
    ensures Start(VOLUME_HEADER, i) + FORK_SIZE <= HDR_LEN
    ensures ForkAt(b, Start(VOLUME_HEADER, i)) == ForkIn(h(VOLUME_HEADER[i].name))
  {
    hide Packed, Start, Holds, BeBytes, ForkAt;
    HeaderStarts();
    ReadSlot(b, 0, VOLUME_HEADER, h, true, i);
    var w := BeBytes(80, h(VOLUME_HEADER[i].name));
    assert w[0..80] == w;
    SameFork(b, Start(VOLUME_HEADER, i), w, 0);
  }

  lemma SignatureBytes(v: nat)
    requires v < TWO16
    ensures BeBytes(2, v) == [0x48, 0x2B] <==> v == 0x482B
    ensures BeBytes(2, v) == [0x48, 0x58] <==> v == 0x4858
  {
    hide BeBytes;
    Two(v);
    if BeBytes(2, v) == [0x48, 0x2B] || BeBytes(2, v) == [0x48, 0x58] {
      assert BeBytes(2, v)[0] == v / 256 && BeBytes(2, v)[1] == v % 256;
    }
  }

  // ---------- the id a new file gets ----------

  /** The id comes from the field that holds the default clump size of data forks. */
  lemma IdRead(b: seq<byte>, h: HeaderField -> nat)
    requires |b| == HDR_LEN && Holds(b, 0, VOLUME_HEADER, h, true) && HeaderFits(h)
    ensures FileId(b) == if h(DataClumpSize) < 20 then 20 else h(DataClumpSize)
    ensures Be32(b, FILE_COUNT_OFF) == h(FileCount) && Be32(b, 64) == h(NextCatalogId)
  {
    hide Packed, Start, Be32, Holds, Number;
    HeaderStarts();
    ReadSlot(b, 0, VOLUME_HEADER, h, true, 9);
    ReadSlot(b, 0, VOLUME_HEADER, h, true, 16);
    ReadSlot(b, 0, VOLUME_HEADER, h, true, 17);
  }

  /** What a creation does to the header by the fields' names: the file is counted, but the next catalog id stays as it
      was and the default clump size becomes the new id plus one. So the file gets the volume's next id exactly when the
      clump size happens to say so. */
  lemma NextIdNeverMoves(b: seq<byte>, b': seq<byte>, free: nat, id: nat, h: HeaderField -> nat, h': HeaderField -> nat)
    requires FileCounted(b, b', free, id)
    requires Holds(b, 0, VOLUME_HEADER, h, true) && HeaderFits(h)
    requires Holds(b', 0, VOLUME_HEADER, h', true) && HeaderFits(h')
    ensures h'(FileCount) == h(FileCount) + 1 && h'(FreeBlocks) == free
    ensures h'(NextCatalogId) == h(NextCatalogId) && h'(DataClumpSize) == id + 1
    ensures id == h(NextCatalogId) <==>
              if h(DataClumpSize) < 20 then h(NextCatalogId) == 20 else h(NextCatalogId) == h(DataClumpSize)
  {
    hide Packed, Start, Be32, Holds, Number, InCounters;
    IdRead(b, h);
    IdRead(b', h');
    HeaderStarts();
    ReadSlot(b', 0, VOLUME_HEADER, h', true, 13);
    ReadSlot(b', 0, VOLUME_HEADER, h', true, 16);
    SameWord64(b, b');
  }

  lemma SameWord64(b: seq<byte>, b': seq<byte>)
    requires SameBesideCounters(b, b')
    ensures Be32(b', 64) == Be32(b, 64)
  {
  }

  // ---------- the catalog's header node ----------

  datatype TreeField =
    | FLink | BLink | Kind | Height | NumRecords | Reserved
    | TreeDepth | RootNode | LeafRecords | FirstLeaf | LastLeaf | NodeSize | MaxKey | TotalNodes | FreeNodes

  const TREE_HEADER: seq<Slot<TreeField>> := [
    Slot(FLink, 4), Slot(BLink, 4), Slot(Kind, 1), Slot(Height, 1), Slot(NumRecords, 2), Slot(Reserved, 2),
    Slot(TreeDepth, 2), Slot(RootNode, 4), Slot(LeafRecords, 4), Slot(FirstLeaf, 4), Slot(LastLeaf, 4),
    Slot(NodeSize, 2), Slot(MaxKey, 2), Slot(TotalNodes, 4), Slot(FreeNodes, 4)]

  lemma TreeStarts()
    ensures |TREE_HEADER| == 15 && Start(TREE_HEADER, 15) == 44
    ensures Start(TREE_HEADER, 2) == 8 && Start(TREE_HEADER, 4) == 10
    ensures Start(TREE_HEADER, 9) == 24 && Start(TREE_HEADER, 10) == 28 && Start(TREE_HEADER, 11) == 32
    ensures Start(TREE_HEADER, 13) == 36
  {
    assert Start(TREE_HEADER, 6) == 14 && Start(TREE_HEADER, 9) == 24 && Start(TREE_HEADER, 12) == 34;
  }

  /** Node size and leaf range by the fields' names; a node size of 0 stands for 4096. */
  lemma TreeRead(cat: seq<byte>, t: TreeField -> nat, v: Volume)
    requires Holds(cat, 0, TREE_HEADER, t, true) && t(Kind) < 256 && t(NumRecords) < TWO16
    requires t(FirstLeaf) < TWO32 && t(LastLeaf) < TWO32 && t(NodeSize) < TWO16 && t(TotalNodes) < TWO32
    ensures 44 <= |cat| && (IsLeaf(cat) <==> t(Kind) == 255) && Records(cat) == t(NumRecords)
    ensures LeafFields(v, cat) <==>
              && v.nodeSize == (if t(NodeSize) == 0 then 4096 else t(NodeSize))
              && (v.firstLeaf, v.lastLeaf) == HostRange(t(FirstLeaf), t(LastLeaf), t(TotalNodes))
  {
    hide Packed, Start, Be16, Be32, Number, HostRange;
    TreeStarts();
    ReadSlot(cat, 0, TREE_HEADER, t, true, 2);
    ReadSlot(cat, 0, TREE_HEADER, t, true, 4);
    ReadSlot(cat, 0, TREE_HEADER, t, true, 9);
    ReadSlot(cat, 0, TREE_HEADER, t, true, 10);
    ReadSlot(cat, 0, TREE_HEADER, t, true, 11);
    ReadSlot(cat, 0, TREE_HEADER, t, true, 13);
  }

  // ---------- catalog records ----------

  datatype FileField =
    | RecordType | Flags | Reserved1 | FileId_ | Created | Modified | AttrModified | Accessed | BackedUp
    | Owner | Group | AdminFlags | OwnerFlags | Mode | Special | UserInfo | ExtendedInfo | Encoding | Reserved2
    | DataFork | ResourceFork

  const FILE_DATA: seq<Slot<FileField>> := [
    Slot(RecordType, 2), Slot(Flags, 2), Slot(Reserved1, 4), Slot(FileId_, 4), Slot(Created, 4), Slot(Modified, 4),
    Slot(AttrModified, 4), Slot(Accessed, 4), Slot(BackedUp, 4), Slot(Owner, 4), Slot(Group, 4), Slot(AdminFlags, 1),
    Slot(OwnerFlags, 1), Slot(Mode, 2), Slot(Special, 4), Slot(UserInfo, 16), Slot(ExtendedInfo, 16),
    Slot(Encoding, 4), Slot(Reserved2, 4), Slot(DataFork, 80), Slot(ResourceFork, 80)]

  lemma FileStarts()
    ensures |FILE_DATA| == 21 && Start(FILE_DATA, 21) == 248
    ensures Start(FILE_DATA, 0) == 0 && Start(FILE_DATA, 3) == 8 && Start(FILE_DATA, 13) == 42
    ensures Start(FILE_DATA, 19) == 88 && Start(FILE_DATA, 20) == 168
  {
    assert Start(FILE_DATA, 4) == 12 && Start(FILE_DATA, 8) == 28 && Start(FILE_DATA, 12) == 41;
    assert Start(FILE_DATA, 16) == 64 && Start(FILE_DATA, 19) == 88;
  }

  /** The data of a new record by the fields' names: a file record with its id, mode 0100755 and its fork. */
  lemma FileWritten(rec: seq<byte>, name: seq<byte>, id: nat, fork: Fork, f: FileField -> nat)
    requires IsFileRecord(rec, name, id, fork) && Holds(rec, 8 + 2 * |name|, FILE_DATA, f, true)
    requires f(RecordType) < TWO16 && f(FileId_) < TWO32 && f(Mode) < TWO16
    ensures f(RecordType) == 2 && f(FileId_) == id && f(Mode) == 33261 && ForkIn(f(DataFork)) == fork
  {
    hide Packed, Start, Be16, Be32, Number, Holds, ForkAt, AsciiName, Filled, Blocks;
    FileStarts();
    var d := 8 + 2 * |name|;
    ReadSlot(rec, d, FILE_DATA, f, true, 0);
    ReadSlot(rec, d, FILE_DATA, f, true, 3);
    ReadSlot(rec, d, FILE_DATA, f, true, 13);
    ReadSlot(rec, d, FILE_DATA, f, true, 19);
    var w := BeBytes(80, f(DataFork));
    WholeNumber(f(DataFork));
    assert w[0..80] == w;
    SameFork(rec, d + 88, w, 0);
  }

  lemma WholeNumber(v: nat)
    ensures Number(80, v, true) == BeBytes(80, v)
  {
  }

  // ---------- catalog keys and lookups ----------

  datatype KeyField = KeyLength | ParentId | NameLength

  const KEY: seq<Slot<KeyField>> := [Slot(KeyLength, 2), Slot(ParentId, 4), Slot(NameLength, 2)]

  /** A key matches by its parent and by its name, which stands behind it in 16-bit characters; a character that is not
      ASCII reads as a question mark. The record's data starts behind the key. */
  lemma KeyRead(node: seq<byte>, o: nat, k: KeyField -> nat, parent: nat, target: seq<byte>)
    requires Holds(node, o, KEY, k, true) && k(KeyLength) < TWO16 && k(ParentId) < TWO32 && k(NameLength) < TWO16
    requires o + 8 + 2 * k(NameLength) <= |node|
    ensures KeyInNode(node, o) && DataOff(node, o) == o + 2 + k(KeyLength)
    ensures KeyMatches(node, o, parent, target) <==>
              && parent == k(ParentId) && |target| == k(NameLength)
              && forall i :: 0 <= i < |target| ==> NameChar(node, o + 8 + 2 * i, target[i])
  {
    hide Packed, Be16, Be32, Number, Holds;
    assert Start(KEY, 0) == 0 && Start(KEY, 1) == 2 && Start(KEY, 2) == 6;
    ReadSlot(node, o, KEY, k, true, 0);
    ReadSlot(node, o, KEY, k, true, 1);
    ReadSlot(node, o, KEY, k, true, 2);
    var name := AsciiName(node, o + 8, k(NameLength));
    if name == target {
      forall i | 0 <= i < |target| ensures NameChar(node, o + 8 + 2 * i, target[i]) {
        assert name[i] == target[i];
      }
    }
  }

  predicate NameChar(b: seq<byte>, o: nat, c: byte) {
    o + 2 <= |b| && c == if 0 < Be16(b, o) < 128 then Be16(b, o) else '?' as int
  }

  /** A lookup by the record types of the format: below the root, which is folder 2, every component but the last leads
      to a folder record (type 1), whose id is the next parent, and the last to a file record (type 2). */
  lemma LookupTypes(cat: seq<byte>, ns: nat, first: nat, last: nat, path: seq<byte>)
    requires 0 < ns
    ensures var parts := Parts(path);
            && FindFileSpec(cat, ns, first, last, path) == FindParts(cat, ns, first, last, parts, 2)
            && (forall p: nat, rest: seq<seq<byte>> :: rest != [] && FindParts(cat, ns, first, last, rest, p).File? ==>
                  Follows(cat, ns, first, last, rest, p))
  {
    hide ScanFrom, Parts, Be32;
    forall p: nat, rest: seq<seq<byte>> | rest != [] && FindParts(cat, ns, first, last, rest, p).File?
      ensures Follows(cat, ns, first, last, rest, p)
    {
      ScanHit(cat, ns, first, last, p, rest[0]);
    }
  }

  ghost predicate Follows(cat: seq<byte>, ns: nat, first: nat, last: nat, rest: seq<seq<byte>>, p: nat)
    requires 0 < ns && rest != []
  {
    var s := ScanFrom(cat, ns, first, last, p, rest[0]);
    && s.Hit?
    && if |rest| == 1 then s.kind == 2 && FindParts(cat, ns, first, last, rest, p) == File(s.node, s.dataOff)
       else
         && s.kind == 1 && Len(s.node + 1, ns) <= |cat| && s.dataOff + 12 <= ns
         && FindParts(cat, ns, first, last, rest, p)
         == FindParts(cat, ns, first, last, rest[1..], Be32(Node(cat, ns, s.node), s.dataOff + 8))
  }

  // ---------- the offset table of a node ----------

  /** Where record `k` of a node starts: its offset is stored in the last two bytes for record 0, in the two before for
      record 1, and so on; the entry behind the last record is the start of the free space. */
  function RecordStart(node: seq<byte>, k: nat): nat
    requires 2 * (k + 1) <= |node|
  {
    Be16(node, |node| - 2 * (k + 1))
  }

  /** A hit of the host's scan is never record 0 of its leaf. */
  lemma {:induction false} FirstRecordUnseen(id: nat, node: seq<byte>, parent: nat, target: seq<byte>, r: nat)
    requires 12 <= |node| && 2 * (Records(node) + 1) <= |node|
    requires forall k :: 1 <= k <= Records(node) ==>
               KeyInNode(node, RecordStart(node, k)) && !KeyMatches(node, RecordStart(node, k), parent, target)
    ensures ScanNode(id, node, parent, target, r) == Miss
    decreases Records(node) - r
  {
    hide KeyMatches, KeyInNode;
    if r < Records(node) {
      assert RecOff(node, r) == RecordStart(node, Records(node) - r);
      FirstRecordUnseen(id, node, parent, target, r + 1);
    }
  }

  /** So the only record of a leaf is never found, whatever its key. */
  lemma LoneRecordUnseen(id: nat, node: seq<byte>, parent: nat, target: seq<byte>)
    requires LeafShape(node) && Records(node) == 1 && RecOff(node, 0) + 12 <= |node| && target != []
    ensures ScanNode(id, node, parent, target, 0) == Miss
  {
    var free := RecordStart(node, 1);
    assert RecOff(node, 0) == free;
    assert Be16(node, free + 6) == 0;
    assert AsciiName(node, free + 8, 0) == [];
    FirstRecordUnseen(id, node, parent, target, 0);
  }

  /** Nor is a hit of the booter's. */
  lemma {:induction false} BootFirstUnseen(node: seq<byte>, parent: nat, target: seq<byte>, folder: bool, r: nat)
    requires 12 <= |node| && 2 * (Records(node) + 1) <= |node|
    requires forall k :: 1 <= k <= Records(node) && RecordStart(node, k) + 8 <= |node| ==>
               Be32(node, RecordStart(node, k) + 2) != parent
    ensures BootScanNode(node, parent, target, folder, r) == NodeMiss
    decreases Records(node) - r
  {
    hide Be32;
    if r < Records(node) {
      assert RecOff(node, r) == RecordStart(node, Records(node) - r);
      BootFirstUnseen(node, parent, target, folder, r + 1);
    }
  }
}
