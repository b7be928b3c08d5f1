/** A disk with small blocks that the booter mounts wrongly. */
module HfsShortDisk {
  import opened Bytes
  import opened Blocking
  import opened HfsExtents
  import opened HfsForkRecord
  import opened HfsVolume
  import opened HfsBooter
  import opened HfsBoot
  import opened HfsRoundTrip
  import opened HfsWitness

  /** Three blocks of 2048 bytes: header, and a catalog of two blocks whose B-tree header is in the first. */
  function ShortByte(i: nat): byte {
    match i
    case 1024 => 0x48
    case 1025 => 0x2B
    case 1066 => 8
    case 1302 => 0x10
    case 1315 => 1
    case 1319 => 2
    case 2075 => 1
    case 2079 => 1
    case 2080 => 2
    case 2087 => 8
    case _ => 0
  }

  function ShortDisk(): (d: Disk)
    ensures |d.data| == 6144 && d.bad == {}
  {
    Disk(seq(6144, i requires 0 <= i => ShortByte(i)), {})
  }

  lemma ShortHeader()
    ensures var h := Header(ShortDisk().data);
            && Readable(ShortDisk(), 2, 1) && GoodSignature(h) && Be32(h, 40) == 2048
            && ForkOf(h, CATALOG_FILE_OFF).size == 4096 && Blocks(ForkOf(h, CATALOG_FILE_OFF).ext) == [1, 2]
  {
    hide RawExtents, Blocks, ShortDisk, Header;
    var h := Header(ShortDisk().data);
    ShortBytes();
    ShortFork(h);
    assert Run(1, 2) == [1, 2];
  }

  lemma ShortBytes()
    ensures forall i :: 0 <= i < HDR_LEN ==> Header(ShortDisk().data)[i] == ShortByte(HDR_OFF + i)
  {
    hide ShortByte;
    var d, h := ShortDisk().data, Header(ShortDisk().data);
    forall i | 0 <= i < HDR_LEN ensures h[i] == ShortByte(HDR_OFF + i) {
      assert h[i] == d[HDR_OFF + i];
    }
  }

  lemma ShortFork(h: seq<byte>)
    requires |h| == HDR_LEN && forall i :: 0 <= i < HDR_LEN ==> h[i] == ShortByte(HDR_OFF + i)
    ensures Be64(h, CATALOG_FILE_OFF) == 4096 && Blocks(RawExtents(h, CATALOG_FILE_OFF)) == Run(1, 2)
  {
    hide RawExtents, Blocks, ForkAt;
    OneExtentFork(h, CATALOG_FILE_OFF, 4096, 1);
  }

  lemma ShortView()
    ensures OnDisk(ShortDisk(), 2048, [1, 2]) && |Seen(ShortDisk(), 2048, [1, 2])| == 4096
    ensures forall i :: 0 <= i < 4096 ==> Seen(ShortDisk(), 2048, [1, 2])[i] == ShortByte(2048 + i)
  {
    hide ShortByte;
    assert Len(2, 2048) == 4096 && Len(1, 4) == 4 && Len(2, 4) == 8;
    var d, view := ShortDisk(), Seen(ShortDisk(), 2048, [1, 2]);
    forall i | 0 <= i < 4096 ensures view[i] == ShortByte(2048 + i) {
      assert view[i] == SeenAt(d, 2048, [1, 2], i);
      assert BlockOf(i, 2048) == (if i < 2048 then 0 else 1) && Within(i, 2048) == if i < 2048 then i else i - 2048;
    }
  }

  /** A mount that goes wrong: the header says nodes of 512 bytes and leaves from 1 to 1; the mount takes the fields
      from the second block, which is zero. */
  lemma ShortDiskMisread()
    ensures var d := ShortDisk();
            var fk := ForkOf(Header(d.data), CATALOG_FILE_OFF);
            && Readable(d, 2, 1) && GoodSignature(Header(d.data)) && Be32(Header(d.data), 40) == 2048
            && HeaderRead(d, 2048, fk) && HeaderBase(2048, fk) == 2048 && fk.size == 4096
            && var cat := Seen(d, 2048, Blocks(fk.ext));
               && |cat| == 4096 && Be16(cat, NODE_SIZE_OFF) == 512 && Be32(cat, FIRST_LEAF_OFF) == 1
               && MountedSize(Be16(cat, 2048 + NODE_SIZE_OFF)) == 4096 && Be32(cat, 2048 + FIRST_LEAF_OFF) == 0
               && Be32(cat, 2048 + TOTAL_NODES_OFF) == 0
  {
    hide ForkOf, Blocks, Seen;
    ShortHeader();
    ShortView();
    var d := ShortDisk();
    var fk := ForkOf(Header(d.data), CATALOG_FILE_OFF);
    ShortReadable(fk);
    assert BlockOf(4095, 2048) == 1 && Len(1, 2048) == 2048;
  }

  lemma ShortReadable(fk: ForkMeta)
    requires fk.size == 4096 && Blocks(fk.ext) == [1, 2]
    ensures HeaderRead(ShortDisk(), 2048, fk)
  {
    hide ShortDisk, Blocks;
    ShortView();
    var d := ShortDisk();
    assert Len(1, 4) == 4 && Len(2, 4) == 8 && Len(2, 2048) == 4096;
    assert BlockReadable(d, 2048, 1) && BlockReadable(d, 2048, 2);
    ReadableRange(d, 2048, [1, 2], 4096);
  }

  /** The mount of that disk: nodes of 4096 bytes, and node 0 alone to look for leaves in. */
  method MountShort() returns (ok: bool, nodeSize: nat, first: nat, last: nat)
    ensures ok && nodeSize == 4096 && first == last == 0
  {
    hide ForkOf, Blocks, Seen, ShortDisk, HeaderRead, HeaderBase, Be32, Be16, GoodSignature, Header;
    ShortDiskMisread();
    var booter := new Booter(ShortDisk());
    ok := booter.Mount();
    nodeSize, first, last := booter.nodeSize, booter.Range().0, booter.Range().1;
  }
}
