/**
  Fork records: the 80 bytes that hold a fork's size and its eight extents, and their
  round trip through pack and unpack.
  */
module HfsForkRecord {
  import opened Bytes
  import opened HfsExtents

  const FORK_SIZE := 80

  function ExtentAt(b: seq<byte>, o: nat): Extent
    requires o + 8 <= |b|
  {
    Extent(Be32(b, o), Be32(b, o + 4))
  }

  /** The eight extent slots of a fork record, zero counts included. */
  function ExtentSlots(b: seq<byte>): (e: seq<Extent>)
    requires |b| == 64
    ensures |e| == 8
  {
    seq(8, i requires 0 <= i < 8 => ExtentAt(b, 8 * i))
  }

  function RawExtents(b: seq<byte>, o: nat): (e: seq<Extent>)
    requires o + FORK_SIZE <= |b|
    ensures |e| == 8
  {
    ExtentSlots(b[o + 16..o + FORK_SIZE])
  }

  function ForkAt(b: seq<byte>, o: nat): Fork
    requires o + FORK_SIZE <= |b|
  {
    Fork(Be64(b, o), NonEmpty(RawExtents(b, o)))
  }

  predicate Encodable(ext: seq<Extent>) {
    forall e :: e in ext ==> e.start < TWO32 && e.count < TWO32
  }

  function ExtentBytes(ext: seq<Extent>): (b: seq<byte>)
    requires Encodable(ext)
    ensures |b| == 8 * |ext|
  {
    if ext == [] then [] else
      assert ext[0] in ext;
      EncBe32(ext[0].start) + EncBe32(ext[0].count) + ExtentBytes(ext[1..])
  }

  /** A fork record; `clump` is the field the tool leaves alone. */
  function ForkRecord(clump: seq<byte>, size: nat, totalBlocks: nat, ext: seq<Extent>): (b: seq<byte>)
    requires |clump| == 4 && size < TWO64 && totalBlocks < TWO32 && |ext| <= 8 && Encodable(ext)
    ensures |b| == FORK_SIZE
  {
    EncBe64(size) + clump + EncBe32(totalBlocks) + ExtentBytes(ext) + Zeros(64 - 8 * |ext|)
  }

  lemma {:induction false} ExtentBytesAt(ext: seq<Extent>, tail: seq<byte>, i: nat)
    requires Encodable(ext) && i < |ext|
    ensures ExtentAt(ExtentBytes(ext) + tail, 8 * i) == ext[i]
  {
    hide EncBe32, Be32;
    assert ext[0] in ext;
    var s, c, rest := EncBe32(ext[0].start), EncBe32(ext[0].count), ExtentBytes(ext[1..]);
    var b := ExtentBytes(ext) + tail;
    assert b == s + c + (rest + tail);
    if i == 0 {
      SameFields(b, s, 0, 0, 4);
      SameFields(b, c, 4, 0, 4);
    } else {
      ExtentBytesAt(ext[1..], tail, i - 1);
      assert b[8..] == rest + tail;
      ExtentShift(b, 8 * (i - 1));
    }
  }

  lemma ExtentShift(b: seq<byte>, o: nat)
    requires o + 16 <= |b|
    ensures ExtentAt(b, o + 8) == ExtentAt(b[8..], o)
  {
  }

  lemma {:induction false} NonEmptyPad(ext: seq<Extent>, pad: seq<Extent>)
    requires forall e :: e in pad ==> e.count == 0
    ensures NonEmpty(ext + pad) == NonEmpty(ext)
    decreases |ext| + |pad|
  {
    if ext != [] {
      assert (ext + pad)[1..] == ext[1..] + pad;
      NonEmptyPad(ext[1..], pad);
    } else if pad != [] {
      assert (ext + pad)[1..] == [] + pad[1..];
      NonEmptyPad([], pad[1..]);
    }
  }

  function ZeroExtents(n: nat): (e: seq<Extent>)
    ensures |e| == n && forall i :: 0 <= i < n ==> e[i] == Extent(0, 0)
  {
    seq(n, _ => Extent(0, 0))
  }

  lemma ZeroField(b: seq<byte>, o: nat)
    requires o + 4 <= |b| && b[o] == b[o + 1] == b[o + 2] == b[o + 3] == 0
    ensures Be32(b, o) == 0
  {
  }

  lemma ExtentSlotsOf(ext: seq<Extent>)
    requires |ext| <= 8 && Encodable(ext)
    ensures ExtentSlots(ExtentBytes(ext) + Zeros(64 - 8 * |ext|)) == ext + ZeroExtents(8 - |ext|)
  {
    hide ExtentBytes, Be32;
    var z := Zeros(64 - 8 * |ext|);
    var b := ExtentBytes(ext) + z;
    forall i | 0 <= i < 8 ensures ExtentAt(b, 8 * i) == (ext + ZeroExtents(8 - |ext|))[i] {
      if i < |ext| {
        ExtentBytesAt(ext, z, i);
      } else {
        ZeroField(b, 8 * i);
        ZeroField(b, 8 * i + 4);
      }
    }
  }

  lemma ForkRecordParts(clump: seq<byte>, size: nat, totalBlocks: nat, ext: seq<Extent>)
    requires |clump| == 4 && size < TWO64 && totalBlocks < TWO32 && |ext| <= 8 && Encodable(ext)
    ensures ForkRecord(clump, size, totalBlocks, ext)[0..8] == EncBe64(size)
    ensures ForkRecord(clump, size, totalBlocks, ext)[8..12] == clump
    ensures ForkRecord(clump, size, totalBlocks, ext)[12..16] == EncBe32(totalBlocks)
    ensures ForkRecord(clump, size, totalBlocks, ext)[16..80] == ExtentBytes(ext) + Zeros(64 - 8 * |ext|)
  {
    hide ExtentBytes, EncBe64, EncBe32, Be64, Be32, Zeros;
    var s, t, e, z := EncBe64(size), EncBe32(totalBlocks), ExtentBytes(ext), Zeros(64 - 8 * |ext|);
    assert ForkRecord(clump, size, totalBlocks, ext) == s + clump + t + e + z;
    FourParts(s, clump, t, e, z);
  }

  lemma FourParts(s: seq<byte>, c: seq<byte>, t: seq<byte>, e: seq<byte>, z: seq<byte>)
    requires |s| == 8 && |c| == 4 && |t| == 4 && |e| + |z| == 64
    ensures var r := s + c + t + e + z;
            |r| == 80 && r[0..8] == s && r[8..12] == c && r[12..16] == t && r[16..80] == e + z
  {
    assert s + c + t + e + z == s + (c + (t + (e + z)));
  }

  /** Fork records round-trip: what was packed is what `fork_from` unpacks. */
  lemma ForkRoundTrip(b: seq<byte>, o: nat, clump: seq<byte>, size: nat, totalBlocks: nat, ext: seq<Extent>)
    requires |clump| == 4 && size < TWO64 && totalBlocks < TWO32 && |ext| <= 8 && Encodable(ext)
    requires o + FORK_SIZE <= |b| && b[o..o + FORK_SIZE] == ForkRecord(clump, size, totalBlocks, ext)
    ensures ForkAt(b, o) == Fork(size, NonEmpty(ext))
    ensures Be64(b, o) == size && RawExtents(b, o) == ext + ZeroExtents(8 - |ext|)
    ensures b[o + 8..o + 12] == clump && Be32(b, o + 12) == totalBlocks
  {
    hide ExtentBytes, ExtentSlots, EncBe64, EncBe32, Be64, ForkRecord, NonEmpty, Zeros;
    var s := EncBe64(size);
    var r := ForkRecord(clump, size, totalBlocks, ext);
    ForkRecordParts(clump, size, totalBlocks, ext);
    SubSlice(b, o, r, 0, 8);
    assert b[o..o + 8] == s[0..8];
    SameFields(b, s, o, 0, 8);
    SubSlice(b, o, r, 8, 4);
    SubSlice(b, o, r, 12, 4);
    assert EncBe32(totalBlocks)[0..4] == EncBe32(totalBlocks);
    SameFields(b, EncBe32(totalBlocks), o + 12, 0, 4);
    SubSlice(b, o, r, 16, 64);
    ExtentSlotsOf(ext);
    NonEmptyPad(ext, ZeroExtents(8 - |ext|));
  }

  lemma SameFork(a: seq<byte>, ao: nat, b: seq<byte>, bo: nat)
    requires ao + FORK_SIZE <= |a| && bo + FORK_SIZE <= |b|
    requires a[ao..ao + FORK_SIZE] == b[bo..bo + FORK_SIZE]
    ensures ForkAt(a, ao) == ForkAt(b, bo) && RawExtents(a, ao) == RawExtents(b, bo) && Be64(a, ao) == Be64(b, bo)
  {
    var r := b[bo..bo + FORK_SIZE];
    SubSlice(a, ao, r, 0, 8);
    SubSlice(b, bo, r, 0, 8);
    SameFields(a, b, ao, bo, 8);
    SubSlice(a, ao, r, 16, 64);
    SubSlice(b, bo, r, 16, 64);
  }
}
