/** Creating a file in the root folder: a new run of blocks, a new catalog record, a new slot. */
module HfsCreate {
  import opened Bytes
  import opened HfsExtents
  import opened HfsForkRecord
  import opened HfsCatalog
  import opened HfsImage

  const RECORD_DATA := 248
  const FILE_MODE := 33261
  const FIRST_RECORD := 14

  // ---------- the record ----------

  predicate AsciiOnly(name: seq<byte>) {
    forall i :: 0 <= i < |name| ==> 0 < name[i] < 128
  }

  function Utf16(name: seq<byte>): (b: seq<byte>)
    ensures |b| == 2 * |name|
    ensures forall i :: 0 <= i < |name| ==> b[2 * i] == 0 && b[2 * i + 1] == name[i]
  {
    seq(2 * |name|, i requires 0 <= i < 2 * |name| => if i % 2 == 0 then 0 else name[i / 2])
  }

  /** The bytes of a new record's data that hold something: type, id, mode, size, block count and one extent. */
  predicate Filled(i: nat) {
    i < 2 || 8 <= i < 12 || 42 <= i < 44 || 88 <= i < 96 || 100 <= i < 112
  }

  /** The data of a new record apart from type, id and fork: a regular file of mode 0755, the block count, zeros. */
  predicate RecordRest(b: seq<byte>, d: nat, total: nat) {
    && d + RECORD_DATA <= |b| && Be16(b, d + 42) == 0x81ED && Be32(b, d + DATA_FORK_OFF + 12) == total
    && forall i :: 0 <= i < RECORD_DATA && !Filled(i) ==> b[d + i] == 0
  }

  /** A record that reads back as: child `name` of the root, a file with this id and fork. */
  ghost predicate IsFileRecord(rec: seq<byte>, name: seq<byte>, id: nat, fork: Fork) {
    IsRecordOf(rec, name, id, fork, |Blocks(fork.extents)|)
  }

  ghost predicate IsRecordOf(rec: seq<byte>, name: seq<byte>, id: nat, fork: Fork, total: nat) {
    var d := 8 + 2 * |name|;
    && |rec| == d + RECORD_DATA
    && Be16(rec, 0) == 6 + 2 * |name| && Be32(rec, 2) == ROOT_ID && Be16(rec, 6) == |name|
    && AsciiName(rec, 8, |name|) == name && NoZeroChars(rec, 8, |name|)
    && Be16(rec, d) == FILE_RECORD && Be32(rec, d + 8) == id && ForkAt(rec, d + DATA_FORK_OFF) == fork
    && RecordRest(rec, d, total)
  }

  lemma FieldIn(b: seq<byte>, off: nat, d: seq<byte>)
    requires off + |d| <= |b|
    ensures |d| == 2 ==> Be16(Patch(b, off, d), off) == Be16(d, 0)
    ensures |d| == 4 ==> Be32(Patch(b, off, d), off) == Be32(d, 0)
  {
    if |d| == 2 || |d| == 4 {
      assert Patch(b, off, d)[off..off + |d|] == d[0..|d|];
      SameFields(Patch(b, off, d), d, off, 0, |d|);
    }
  }

  /** The put of the type, the id and the ownership fields into 248 zero bytes. */
  method FileHead(id: nat) returns (head: seq<byte>)
    requires id < TWO32
    ensures |head| == RECORD_DATA && Be16(head, 0) == FILE_RECORD && Be32(head, 8) == id
    ensures forall i :: DATA_FORK_OFF <= i < RECORD_DATA ==> head[i] == 0
    ensures Be16(head, 42) == 0x81ED && forall i :: 0 <= i < DATA_FORK_OFF && !Filled(i) ==> head[i] == 0
  {
    hide Patch, EncBe16, EncBe32, Be16, Be32;
    var zero := Zeros(RECORD_DATA);
    var typed := Patch(zero, 0, EncBe16(FILE_RECORD));
    FieldIn(zero, 0, EncBe16(FILE_RECORD));
    var named := Patch(typed, 8, EncBe32(id));
    FieldIn(typed, 8, EncBe32(id));
    FieldsOutside(typed, 8, EncBe32(id), 0);
    head := Patch(Patch(Patch(named, 32, EncBe32(0)), 36, EncBe32(0)), 40, EncBe32(FILE_MODE));
    SmallPuts(named);
  }

  /** The three ownership puts touch nothing the scan or the fork needs. */
  lemma SmallPuts(b: seq<byte>)
    requires |b| == RECORD_DATA
    ensures var r := Patch(Patch(Patch(b, 32, EncBe32(0)), 36, EncBe32(0)), 40, EncBe32(FILE_MODE));
            && Be16(r, 0) == Be16(b, 0) && Be32(r, 8) == Be32(b, 8)
            && (forall i :: DATA_FORK_OFF <= i < RECORD_DATA ==> r[i] == b[i])
            && Be16(r, 42) == 0x81ED
            && forall i :: 0 <= i < DATA_FORK_OFF && !(42 <= i < 44) ==> r[i] == if 32 <= i < 44 then 0 else b[i]
  {
    assert FILE_MODE / TWO16 == 0 && FILE_MODE % TWO16 == 0x81ED;
  }

  /** Five consecutive puts make a fork record with one extent. */
  lemma ForkPuts(head: seq<byte>, size: nat, totalBlocks: nat, start: nat, count: nat)
    requires size < TWO64 && totalBlocks < TWO32 && start < TWO32 && count < TWO32
    requires |head| == RECORD_DATA && forall i :: DATA_FORK_OFF <= i < RECORD_DATA ==> head[i] == 0
    ensures var o := DATA_FORK_OFF;
            var r := Patch(Patch(Patch(Patch(Patch(head, o, EncBe64(size)), o + 8, EncBe32(0)), o + 12,
                                       EncBe32(totalBlocks)),
                           o + 16, EncBe32(start)), o + 20, EncBe32(count));
            && r[o..o + FORK_SIZE] == ForkRecord(EncBe32(0), size, totalBlocks, [Extent(start, count)])
            && (forall i :: 0 <= i < o || o + FORK_SIZE <= i < RECORD_DATA ==> r[i] == head[i])
  {
    hide EncBe64, EncBe32, Be64, Be32, Patch;
    var o, s, z, t, a, c := DATA_FORK_OFF, EncBe64(size), EncBe32(0), EncBe32(totalBlocks), EncBe32(start),
        EncBe32(count);
    PatchAppend(head, o, s, z);
    PatchAppend(head, o, s + z, t);
    PatchAppend(head, o, s + z + t, a);
    PatchAppend(head, o, s + z + t + a, c);
    var w := s + z + t + a + c;
    var ext := [Extent(start, count)];
    assert ext[1..] == [] && ExtentBytes(ext) == a + c + ExtentBytes(ext[1..]);
    assert ExtentBytes(ext) == a + c;
    PatchThenZeros(head, o, w);
    assert ForkRecord(z, size, totalBlocks, ext) == w + Zeros(56);
  }

  lemma PatchThenZeros(b: seq<byte>, o: nat, w: seq<byte>)
    requires |w| == 24 && o + 80 <= |b| && forall i :: o + 24 <= i < o + 80 ==> b[i] == 0
    ensures Patch(b, o, w)[o..o + 80] == w + Zeros(56)
  {
  }

  /** The data part of a file record. */
  method FileData(id: nat, size: nat, totalBlocks: nat, start: nat, count: nat) returns (data: seq<byte>)
    requires id < TWO32 && size < TWO64 && totalBlocks < TWO32 && start < TWO32 && count < TWO32
    ensures |data| == RECORD_DATA && Be16(data, 0) == FILE_RECORD && Be32(data, 8) == id
    ensures ForkAt(data, DATA_FORK_OFF) == Fork(size, NonEmpty([Extent(start, count)]))
    ensures RecordRest(data, 0, totalBlocks)
  {
    hide Patch, EncBe16, EncBe32, EncBe64, Be16, Be32, Be64, ForkAt, ForkRecord, ExtentBytes, NonEmpty, Zeros;
    var head := FileHead(id);
    data := Patch(head, DATA_FORK_OFF, EncBe64(size));
    data := Patch(data, DATA_FORK_OFF + 8, EncBe32(0));
    data := Patch(data, DATA_FORK_OFF + 12, EncBe32(totalBlocks));
    data := Patch(data, DATA_FORK_OFF + 16, EncBe32(start));
    data := Patch(data, DATA_FORK_OFF + 20, EncBe32(count));
    ForkPuts(head, size, totalBlocks, start, count);
    var ext := [Extent(start, count)];
    ForkRoundTrip(data, DATA_FORK_OFF, EncBe32(0), size, totalBlocks, ext);
    assert data[0..2] == head[0..2] && data[8..12] == head[8..12];
    SameFields(data, head, 0, 0, 2);
    SameFields(data, head, 8, 8, 4);
    assert data[42..44] == head[42..44];
    SameFields(data, head, 42, 42, 2);
    RestOfData(head, data, size, totalBlocks, start, count);
  }

  lemma RestOfData(head: seq<byte>, data: seq<byte>, size: nat, totalBlocks: nat, start: nat, count: nat)
    requires size < TWO64 && totalBlocks < TWO32 && start < TWO32 && count < TWO32
    requires |head| == |data| == RECORD_DATA && Be16(data, 42) == 0x81ED
    requires forall i :: DATA_FORK_OFF <= i < RECORD_DATA || (0 <= i < DATA_FORK_OFF && !Filled(i)) ==> head[i] == 0
    requires forall i :: 0 <= i < DATA_FORK_OFF || DATA_FORK_OFF + FORK_SIZE <= i < RECORD_DATA ==> data[i] == head[i]
    requires data[DATA_FORK_OFF..DATA_FORK_OFF + FORK_SIZE]
          == ForkRecord(EncBe32(0), size, totalBlocks, [Extent(start, count)])
    ensures RecordRest(data, 0, totalBlocks)
  {
    hide ForkRecord, EncBe32, Be32, Be16;
    var o, ext := DATA_FORK_OFF, [Extent(start, count)];
    ForkRoundTrip(data, o, EncBe32(0), size, totalBlocks, ext);
    OneExtentZeros(size, totalBlocks, ext);
    forall i | 0 <= i < RECORD_DATA && !Filled(i) ensures data[i] == 0 {
      if o <= i < o + FORK_SIZE {
        assert data[o..o + FORK_SIZE][i - o] == data[i];
      }
    }
  }

  lemma OneExtentZeros(size: nat, totalBlocks: nat, ext: seq<Extent>)
    requires size < TWO64 && totalBlocks < TWO32 && |ext| == 1 && Encodable(ext)
    ensures var r := ForkRecord(EncBe32(0), size, totalBlocks, ext);
            forall i :: 8 <= i < 12 || 24 <= i < 80 ==> r[i] == 0
  {
    hide EncBe64, ExtentBytes;
    assert EncBe32(0) == [0, 0, 0, 0];
  }

  /** `build_catalog_file_record` for a name that packs. */
  method BuildRecord(name: seq<byte>, id: nat, size: nat, totalBlocks: nat, start: nat, count: nat)
    returns (rec: seq<byte>)
    requires AsciiOnly(name) && 6 + 2 * |name| < TWO16
    requires id < TWO32 && size < TWO64 && totalBlocks < TWO32 && start < TWO32 && count < TWO32
    ensures IsRecordOf(rec, name, id, Fork(size, NonEmpty([Extent(start, count)])), totalBlocks)
  {
    hide EncBe16, EncBe32, Be16, Be32, Be64, ForkAt, NonEmpty, AsciiName;
    var data := FileData(id, size, totalBlocks, start, count);
    var k, p, l, u := EncBe16(6 + 2 * |name|), EncBe32(ROOT_ID), EncBe16(|name|), Utf16(name);
    rec := k + p + l + u + data;
    RecordParts(k, p, l, u, data);
    Utf16Name(rec, name);
  }

  lemma RecordParts(k: seq<byte>, p: seq<byte>, l: seq<byte>, u: seq<byte>, data: seq<byte>)
    requires |k| == 2 && |p| == 4 && |l| == 2 && |data| == RECORD_DATA
    ensures var rec := k + p + l + u + data;
            var d := 8 + |u|;
            && Be16(rec, 0) == Be16(k, 0) && Be32(rec, 2) == Be32(p, 0) && Be16(rec, 6) == Be16(l, 0)
            && rec[8..d] == u && Be16(rec, d) == Be16(data, 0) && Be32(rec, d + 8) == Be32(data, 8)
            && ForkAt(rec, d + DATA_FORK_OFF) == ForkAt(data, DATA_FORK_OFF)
            && forall total :: RecordRest(data, 0, total) ==> RecordRest(rec, d, total)
  {
    hide ForkAt;
    var rec := k + p + l + u + data;
    var d := 8 + |u|;
    assert rec[d + DATA_FORK_OFF..d + DATA_FORK_OFF + FORK_SIZE] == data[DATA_FORK_OFF..DATA_FORK_OFF + FORK_SIZE];
    SameFork(rec, d + DATA_FORK_OFF, data, DATA_FORK_OFF);
    assert forall i :: 0 <= i < RECORD_DATA ==> rec[d + i] == data[i];
  }

  lemma Utf16Char(rec: seq<byte>, name: seq<byte>, i: nat)
    requires 8 + 2 * |name| <= |rec| && rec[8..8 + 2 * |name|] == Utf16(name) && i < |name|
    ensures Be16(rec, 8 + 2 * i) == name[i]
  {
    hide Utf16;
    var w := rec[8..8 + 2 * |name|];
    assert w[2 * i] == rec[8 + 2 * i] && w[2 * i + 1] == rec[8 + 2 * i + 1];
  }

  lemma Utf16Name(rec: seq<byte>, name: seq<byte>)
    requires AsciiOnly(name) && 8 + 2 * |name| <= |rec| && rec[8..8 + 2 * |name|] == Utf16(name)
    ensures AsciiName(rec, 8, |name|) == name && NoZeroChars(rec, 8, |name|)
  {
    hide Utf16, Be16;
    forall i | 0 <= i < |name| ensures AsciiName(rec, 8, |name|)[i] == name[i] && Be16(rec, 8 + 2 * i) != 0 {
      Utf16Char(rec, name, i);
    }
  }

  // ---------- the leaf ----------

  /** A leaf as the tool expects it: the offset table runs downwards through records of at least
      eight bytes from offset 14, what the scan reads of each record lies below the free space, and
      the free space is zero. */
  ghost predicate LeafShape(node: seq<byte>) {
    && 12 <= |node| < TWO16 && |node| % 2 == 0 && IsLeaf(node)
    && 1 <= Records(node) && 2 * (Records(node) + 1) <= |node|
    && (forall i :: 0 <= i <= Records(node) ==>
        SlotInNode(node, i) && RecOff(node, i) >= FIRST_RECORD + 8 * (Records(node) - i))
    && RecOff(node, 0) <= |node| - 2 * (Records(node) + 1)
    && (forall i :: 1 <= i < Records(node) ==> SlotBelow(node, RecOff(node, i), RecOff(node, 0)))
    && (forall p :: RecOff(node, 0) <= p < |node| - 2 * (Records(node) + 1) ==> node[p] == 0)
  }

  predicate SlotBelow(node: seq<byte>, o: nat, free: nat) {
    && KeyInNode(node, o) && o + 8 + 2 * NameLen(node, o) <= free && 12 <= DataOff(node, o)
        && DataOff(node, o) + 12 <= free
  }

  /** Where a new record goes: the free offset rounded up to even. */
  function NewOff(node: seq<byte>): nat
    requires 12 <= |node| && SlotInNode(node, 0)
  {
    RecOff(node, 0) + RecOff(node, 0) % 2
  }

  /** The new record starts at the first even offset of the free space. */
  lemma NewOffFirst(node: seq<byte>, o: nat)
    requires 12 <= |node| && SlotInNode(node, 0)
    ensures NewOff(node) % 2 == 0 && RecOff(node, 0) <= NewOff(node)
    ensures o % 2 == 0 && RecOff(node, 0) <= o ==> NewOff(node) <= o
  {
  }

  /** What is left between the new free offset and the new offset table. */
  function Gap(node: seq<byte>, len: nat): int
    requires 12 <= |node| && SlotInNode(node, 0)
  {
    |node| - 2 * (Records(node) + 2) - (NewOff(node) + len)
  }

  /** A node with the record stored, the count raised, and two slots in front of the old ones. */
  function Insertion(node: seq<byte>, rec: seq<byte>): (r: seq<byte>)
    requires 12 <= |node| < TWO16 && SlotInNode(node, 0) && 0 <= Gap(node, |rec|)
    ensures |r| == |node|
  {
    var a := Patch(node, NewOff(node), rec);
    var b := Patch(a, 10, EncBe16(Records(node) + 1));
    Patch(b, |node| - 2 * (Records(node) + 2), EncBe16(NewOff(node) + |rec|) + EncBe16(NewOff(node)))
  }

  /** The same on a leaf of the expected shape. */
  function Inserted(node: seq<byte>, rec: seq<byte>): (r: seq<byte>)
    requires LeafShape(node) && 0 <= Gap(node, |rec|)
    ensures |r| == |node|
  {
    Insertion(node, rec)
  }

  /** Byte by byte: the three places an insertion touches. */
  lemma InsertedBytes(node: seq<byte>, rec: seq<byte>)
    requires LeafShape(node) && 0 <= Gap(node, |rec|)
    ensures var r := Inserted(node, rec);
            var off, idx := NewOff(node), |node| - 2 * (Records(node) + 2);
            && r[off..off + |rec|] == rec
            && (forall p :: 0 <= p < |node| && !(10 <= p < 12) && !(off <= p < off + |rec|) && !(idx <= p < idx + 4) ==>
                r[p] == node[p])
            && Be16(r, 10) == Records(node) + 1 && Be16(r, idx) == off + |rec| && Be16(r, idx + 2) == off
  {
    hide SlotBelow, EncBe16;
    var off, idx := NewOff(node), |node| - 2 * (Records(node) + 2);
    var n, f, o := EncBe16(Records(node) + 1), EncBe16(off + |rec|), EncBe16(off);
    var r := Inserted(node, rec);
    assert RecOff(node, 0) >= FIRST_RECORD;
    assert r[off..off + |rec|] == rec;
    assert r[10..12] == n[0..2];
    SameFields(r, n, 10, 0, 2);
    assert r[idx..idx + 2] == f[0..2];
    SameFields(r, f, idx, 0, 2);
    assert r[idx + 2..idx + 4] == o[0..2];
    SameFields(r, o, idx + 2, 0, 2);
  }

  predicate SlotShifted(node: seq<byte>, r: seq<byte>, i: nat)
    requires 12 <= |node| && 12 <= |r|
  {
    SlotInNode(node, i) && SlotInNode(r, i + 1) && RecOff(r, i + 1) == RecOff(node, i)
  }

  lemma InsertedTable(node: seq<byte>, rec: seq<byte>)
    requires LeafShape(node) && 0 <= Gap(node, |rec|)
    ensures var r := Inserted(node, rec);
            && IsLeaf(r) && Records(r) == Records(node) + 1
            && SlotInNode(r, 0) && RecOff(r, 0) == NewOff(node) + |rec|
            && SlotInNode(r, 1) && RecOff(r, 1) == NewOff(node)
            && forall i :: 1 <= i <= Records(node) ==> SlotShifted(node, r, i)
  {
    hide Inserted, SlotBelow;
    InsertedBytes(node, rec);
    var r := Inserted(node, rec);
    assert RecOff(node, 0) >= FIRST_RECORD;
    forall i | 1 <= i <= Records(node) ensures SlotShifted(node, r, i) {
      var p := SlotPos(node, i);
      assert SlotPos(r, i + 1) == p;
      assert r[p] == node[p] && r[p + 1] == node[p + 1];
    }
  }

  /** Below the old free space, and past the node's descriptor, nothing moved. */
  lemma BelowFree(node: seq<byte>, rec: seq<byte>, lo: nat, n: nat)
    requires LeafShape(node) && 0 <= Gap(node, |rec|) && 12 <= lo && lo + n <= RecOff(node, 0)
    ensures Inserted(node, rec)[lo..lo + n] == node[lo..lo + n]
  {
    hide Inserted, SlotBelow;
    InsertedBytes(node, rec);
    var x, y := Inserted(node, rec)[lo..lo + n], node[lo..lo + n];
    forall i | 0 <= i < n ensures x[i] == y[i] {
      assert x[i] == Inserted(node, rec)[lo + i];
    }
  }

  lemma SameName(a: seq<byte>, ao: nat, b: seq<byte>, bo: nat, n: nat)
    requires ao + 2 * n <= |a| && bo + 2 * n <= |b| && a[ao..ao + 2 * n] == b[bo..bo + 2 * n]
    ensures AsciiName(a, ao, n) == AsciiName(b, bo, n)
  {
    SameFields(a, b, ao, bo, 2 * n);
    forall i | 0 <= i < n ensures AsciiName(a, ao, n)[i] == AsciiName(b, bo, n)[i] {
      assert a[ao + 2 * i] == b[bo + 2 * i] && a[ao + (2 * i + 1)] == b[bo + (2 * i + 1)];
    }
  }

  /** An old slot reads the same after the insertion. */
  lemma OldSlot(node: seq<byte>, rec: seq<byte>, o: nat, parent: nat, target: seq<byte>)
    requires LeafShape(node) && 0 <= Gap(node, |rec|) && FIRST_RECORD <= o && SlotBelow(node, o, RecOff(node, 0))
    ensures var r := Inserted(node, rec);
            && KeyInNode(r, o) && NameLen(r, o) == NameLen(node, o) && DataOff(r, o) == DataOff(node, o)
            && KeyMatches(r, o, parent, target) == KeyMatches(node, o, parent, target)
            && Be16(r, DataOff(node, o)) == Be16(node, DataOff(node, o))
            && Be32(r, DataOff(node, o) + 8) == Be32(node, DataOff(node, o) + 8)
  {
    hide Inserted, LeafShape, Be16, Be32, AsciiName;
    var r, nl, d := Inserted(node, rec), NameLen(node, o), DataOff(node, o);
    BelowFree(node, rec, o, 2);
    SameFields(r, node, o, o, 2);
    BelowFree(node, rec, o + 2, 4);
    SameFields(r, node, o + 2, o + 2, 4);
    BelowFree(node, rec, o + 6, 2);
    SameFields(r, node, o + 6, o + 6, 2);
    BelowFree(node, rec, o + 8, 2 * nl);
    SameName(r, o + 8, node, o + 8, nl);
    BelowFree(node, rec, d, 2);
    SameFields(r, node, d, d, 2);
    BelowFree(node, rec, d + 8, 4);
    SameFields(r, node, d + 8, d + 8, 4);
  }

  /** The old slots give the same scan, one place further on. */
  lemma {:induction false} ShiftedScan(id: nat, node: seq<byte>, rec: seq<byte>, parent: nat, target: seq<byte>, i: nat)
    requires LeafShape(node) && 0 <= Gap(node, |rec|) && 1 <= i <= Records(node)
    ensures ScanNode(id, Inserted(node, rec), parent, target, i + 1) == ScanNode(id, node, parent, target, i)
    decreases Records(node) - i
  {
    hide Inserted, KeyMatches, Be16, SlotBelow, SlotPos;
    InsertedTable(node, rec);
    assert SlotShifted(node, Inserted(node, rec), i);
    if i < Records(node) {
      assert SlotBelow(node, RecOff(node, i), RecOff(node, 0));
      SlotBelowKey(node, RecOff(node, i), RecOff(node, 0));
      OldSlot(node, rec, RecOff(node, i), parent, target);
      ShiftedScan(id, node, rec, parent, target, i + 1);
    }
  }

  lemma SlotBelowKey(node: seq<byte>, o: nat, free: nat)
    requires SlotBelow(node, o, free)
    ensures KeyInNode(node, o) && DataOff(node, o) + 12 <= free
  {
  }

  /** A slot on eight zero bytes matches nothing. */
  lemma ZeroSlot(node: seq<byte>, o: nat, parent: nat, target: seq<byte>)
    requires o + 8 <= |node| && (forall p :: o <= p < o + 8 ==> node[p] == 0) && target != []
    ensures KeyInNode(node, o) && NameLen(node, o) == 0 && !KeyMatches(node, o, parent, target)
  {
  }

  /** The new slot reads back as the new file. */
  lemma NewSlot(node: seq<byte>, rec: seq<byte>, name: seq<byte>, fileId: nat, fork: Fork, parent: nat,
                target: seq<byte>)
    requires LeafShape(node) && 0 <= Gap(node, |rec|) && IsFileRecord(rec, name, fileId, fork)
    ensures var r, o, d := Inserted(node, rec), NewOff(node), NewOff(node) + 8 + 2 * |name|;
            && KeyInNode(r, o) && NameLen(r, o) == |name| && DataOff(r, o) == d
                && d + RECORD_DATA == NewOff(node) + |rec|
            && d + RECORD_DATA <= |r|
            && (KeyMatches(r, o, parent, target) <==> parent == ROOT_ID && target == name)
            && Be16(r, d) == FILE_RECORD && Be32(r, d + 8) == fileId && ForkAt(r, d + DATA_FORK_OFF) == fork
  {
    hide Inserted, LeafShape, Be16, Be32, AsciiName, ForkAt, RecOff;
    var r, o := Inserted(node, rec), NewOff(node);
    var d := 8 + 2 * |name|;
    InsertedBytes(node, rec);
    SubSlice(r, o, rec, 0, 2);
    SameFields(r, rec, o, 0, 2);
    SubSlice(r, o, rec, 2, 4);
    SameFields(r, rec, o + 2, 2, 4);
    SubSlice(r, o, rec, 6, 2);
    SameFields(r, rec, o + 6, 6, 2);
    SubSlice(r, o, rec, 8, 2 * |name|);
    SameName(r, o + 8, rec, 8, |name|);
    SubSlice(r, o, rec, d, 2);
    SameFields(r, rec, o + d, d, 2);
    SubSlice(r, o, rec, d + 8, 4);
    SameFields(r, rec, o + d + 8, d + 8, 4);
    SubSlice(r, o, rec, d + DATA_FORK_OFF, FORK_SIZE);
    SameFork(r, o + d + DATA_FORK_OFF, rec, d + DATA_FORK_OFF);
  }

  /** With at least eight bytes left, the leaf scans as before, and finds the new file. */
  lemma ScanInserted(id: nat, node: seq<byte>, rec: seq<byte>, name: seq<byte>, fileId: nat, fork: Fork, parent: nat,
                     target: seq<byte>)
    requires LeafShape(node) && 8 <= Gap(node, |rec|) && IsFileRecord(rec, name, fileId, fork) && target != []
    ensures ScanNode(id, Inserted(node, rec), parent, target, 0)
         == if parent == ROOT_ID && target == name then Hit(id, NewOff(node) + 8 + 2 * |name|, FILE_RECORD)
            else ScanNode(id, node, parent, target, 0)
  {
    hide Inserted, KeyMatches, Be16, SlotBelow, SlotPos, ForkAt, IsFileRecord, Be32;
    var r := Inserted(node, rec);
    InsertedTable(node, rec);
    InsertedBytes(node, rec);
    NewSlot(node, rec, name, fileId, fork, parent, target);
    ZeroSlot(r, NewOff(node) + |rec|, parent, target);
    ZeroSlot(node, RecOff(node, 0), parent, target);
    ShiftedScan(id, node, rec, parent, target, 1);
  }

  lemma TableWord(r: seq<byte>, j: nat)
    requires 12 <= |r| && 2 * (Records(r) + 1) <= |r| && SlotInNode(r, j)
    ensures RecOff(r, j) == Be16(r, |r| - 2 * (Records(r) + 1) + 2 * j)
  {
  }

  /** Every offset in the new table is too large to be a name length that fits behind it. */
  lemma TableTooLarge(node: seq<byte>, rec: seq<byte>, j: nat)
    requires LeafShape(node) && 0 <= Gap(node, |rec|) && j <= 3 && j < Records(node) + 2
    ensures SlotInNode(Inserted(node, rec), j)
    ensures RecOff(Inserted(node, rec), j) > Records(node) + 2 - j
  {
    hide Inserted, SlotBelow, Be16, SlotPos;
    InsertedTable(node, rec);
    var n := Records(node);
    assert RecOff(node, 0) >= FIRST_RECORD + 8 * n;
    if j >= 2 {
      assert SlotShifted(node, Inserted(node, rec), j - 1);
      assert RecOff(node, j - 1) >= FIRST_RECORD + 8 * (n - (j - 1));
    }
  }

  /** With less than eight bytes left, the scan takes part of the offset table for the length of a
      name and runs out of the node: every later lookup in this leaf raises. */
  lemma ScanInsertedFull(id: nat, node: seq<byte>, rec: seq<byte>, parent: nat, target: seq<byte>)
    requires LeafShape(node) && 0 <= Gap(node, |rec|) < 8 && |rec| % 2 == 0
    ensures ScanNode(id, Inserted(node, rec), parent, target, 0) == Raised(StructError)
  {
    hide Inserted, KeyMatches, SlotBelow, AsciiName, Be32, Be16;
    var r := Inserted(node, rec);
    var n, g := Records(node), Gap(node, |rec|);
    InsertedTable(node, rec);
    var o, j := NewOff(node) + |rec|, (6 - g) / 2;
    assert o + g == |node| - 2 * (n + 2) && g % 2 == 0;
    if j < n + 2 {
      TableTooLarge(node, rec, j);
      TableWord(r, j);
      assert o + 6 == |r| - 2 * (n + 2) + 2 * j;
    }
  }
}
