/** The ELF32 headers of the System V gABI, field by field, and what the loader reads from them. */
module ElfFormat {
  import opened Bytes
  import opened Layout
  import opened ElfLoader

  datatype EhdrField =
    | Magic | Class | Data | IdentVersion | OsAbi | AbiVersion | Pad
    | Type | Arch | Version | Entry | PhOff | ShOff | EFlags
    | EhSize | PhEntSize | PhNum | ShEntSize | ShNum | ShStrNdx

  const EHDR: seq<Slot<EhdrField>> := [
    Slot(Magic, 4), Slot(Class, 1), Slot(Data, 1), Slot(IdentVersion, 1), Slot(OsAbi, 1), Slot(AbiVersion, 1),
    Slot(Pad, 7), Slot(Type, 2), Slot(Arch, 2), Slot(Version, 4), Slot(Entry, 4), Slot(PhOff, 4), Slot(ShOff, 4),
    Slot(EFlags, 4), Slot(EhSize, 2), Slot(PhEntSize, 2), Slot(PhNum, 2), Slot(ShEntSize, 2), Slot(ShNum, 2),
    Slot(ShStrNdx, 2)]

  datatype PhdrField = SegType | Offset | VirtAddr | PhysAddr | FileSize | MemSize | SegFlags | Align

  const PHDR: seq<Slot<PhdrField>> := [
    Slot(SegType, 4), Slot(Offset, 4), Slot(VirtAddr, 4), Slot(PhysAddr, 4), Slot(FileSize, 4), Slot(MemSize, 4),
    Slot(SegFlags, 4), Slot(Align, 4)]

  /** Where the fields the loader looks at stand. */
  lemma EhdrStarts()
    ensures |EHDR| == 20 && Start(EHDR, 20) == 52
    ensures Start(EHDR, 0) == 0 && Start(EHDR, 1) == 4 && Start(EHDR, 2) == 5
    ensures Start(EHDR, 11) == 28 && Start(EHDR, 15) == 42 && Start(EHDR, 16) == 44
  {
    assert Start(EHDR, 4) == 7 && Start(EHDR, 8) == 18 && Start(EHDR, 11) == 28;
    assert Start(EHDR, 14) == 40 && Start(EHDR, 17) == 46;
  }

  lemma PhdrStarts()
    ensures |PHDR| == 8 && Start(PHDR, 8) == 32
    ensures Start(PHDR, 0) == 0 && Start(PHDR, 1) == 4 && Start(PHDR, 2) == 8 && Start(PHDR, 4) == 16
    ensures Start(PHDR, 5) == 20
  {
    assert Start(PHDR, 3) == 12 && Start(PHDR, 6) == 24;
  }

  ghost predicate EhdrFits(e: EhdrField -> nat) {
    && e(Magic) < TWO32 && e(Class) < 256 && e(Data) < 256 && e(PhOff) < TWO32
    && e(PhEntSize) < TWO16 && e(PhNum) < TWO16
  }

  ghost predicate PhdrFits(p: PhdrField -> nat) {
    && p(SegType) < TWO32 && p(Offset) < TWO32 && p(VirtAddr) < TWO32
    && p(FileSize) < TWO32 && p(MemSize) < TWO32
  }

  /** A file with this header is accepted when it starts with the four magic bytes, is a 32-bit little-endian object,
      and its table of 32-byte program headers, 1 to 16 of them, lies in the file. */
  lemma EhdrRead(b: seq<byte>, size: nat, e: EhdrField -> nat)
    requires size <= |b| && Holds(b, 0, EHDR, e, false) && EhdrFits(e)
    ensures 52 <= |b| && Le32(b, 28) == e(PhOff) && Le16(b, 44) == e(PhNum)
    ensures EhdrOk(b, size) <==>
              && 52 <= size && LeBytes(4, e(Magic)) == [0x7F, 'E' as int, 'L' as int, 'F' as int]
              && e(Class) == 1 && e(Data) == 1 && e(PhEntSize) == 32 && 1 <= e(PhNum) <= 16
              && e(PhOff) + 32 * e(PhNum) <= size
  {
    hide Packed, Start, Le16, Le32, Number, LeBytes;
    EhdrStarts();
    ReadSlot(b, 0, EHDR, e, false, 0);
    ReadSlot(b, 0, EHDR, e, false, 1);
    ReadSlot(b, 0, EHDR, e, false, 2);
    ReadSlot(b, 0, EHDR, e, false, 11);
    ReadSlot(b, 0, EHDR, e, false, 15);
    ReadSlot(b, 0, EHDR, e, false, 16);
    MagicBytes(e(Magic));
  }

  lemma MagicBytes(v: nat)
    requires v < TWO32
    ensures LeBytes(4, v) == [0x7F, 'E' as int, 'L' as int, 'F' as int] <==> v == ELF_MAGIC
  {
    hide LeBytes;
    Four(v);
    Two(v % TWO16);
    Two(v / TWO16);
    var b := LeBytes(4, v);
    assert b == [v % TWO16 % 256, v % TWO16 / 256, v / TWO16 % 256, v / TWO16 / 256];
    if b == [0x7F, 0x45, 0x4C, 0x46] {
      assert b[0] == 0x7F && b[1] == 0x45 && b[2] == 0x4C && b[3] == 0x46;
    }
  }

  /** The segment a program header describes. */
  ghost function Segment(p: PhdrField -> nat): Phdr {
    Phdr(p(SegType), p(Offset), p(VirtAddr), p(FileSize), p(MemSize))
  }

  lemma PhdrRead(b: seq<byte>, o: nat, p: PhdrField -> nat)
    requires Holds(b, o, PHDR, p, false) && PhdrFits(p)
    ensures o + 32 <= |b| && PhdrAt(b, o) == Segment(p)
  {
    hide Packed, Start, Le16, Le32, Holds, Number;
    HoldsBounds(b, o, p);
    PhdrStarts();
    ReadSlot(b, o, PHDR, p, false, 0);
    ReadSlot(b, o, PHDR, p, false, 1);
    ReadSlot(b, o, PHDR, p, false, 2);
    ReadSlot(b, o, PHDR, p, false, 4);
    ReadSlot(b, o, PHDR, p, false, 5);
  }

  lemma HoldsBounds(b: seq<byte>, o: nat, p: PhdrField -> nat)
    requires Holds(b, o, PHDR, p, false)
    ensures o + 32 <= |b|
  {
    hide Packed;
    PhdrStarts();
  }

  /** The file holds a header and, where the header says, the program headers one after the other. */
  ghost predicate IsElf(b: seq<byte>, e: EhdrField -> nat, ps: seq<PhdrField -> nat>) {
    && Holds(b, 0, EHDR, e, false) && EhdrFits(e) && |ps| == e(PhNum)
    && forall i :: 0 <= i < |ps| ==> Holds(b, e(PhOff) + 32 * i, PHDR, ps[i], false) && PhdrFits(ps[i])
  }

  /** The loader sees exactly the segments the file describes, in order. */
  lemma ElfRead(b: seq<byte>, e: EhdrField -> nat, ps: seq<PhdrField -> nat>)
    requires IsElf(b, e, ps) && EhdrOk(b, |b|)
    ensures Phdrs(b, |b|) == seq(|ps|, i requires 0 <= i < |ps| => Segment(ps[i]))
  {
    hide Holds, Le16, Le32, Segment, PhdrAt, PhdrFits;
    EhdrRead(b, |b|, e);
    forall i | 0 <= i < |ps| ensures Phdrs(b, |b|)[i] == Segment(ps[i]) {
      PhdrRead(b, e(PhOff) + 32 * i, ps[i]);
    }
  }

  // ---------- a small file ----------

  const SMALL_IDENT: seq<byte> := [0x7F, 0x45, 0x4C, 0x46, 1, 1, 1, 0, 0, 0, 0, 0, 0, 0, 0, 0]

  const SMALL_EHDR: seq<byte> :=
    [2, 0, 0xF3, 0, 1, 0, 0, 0, 0, 0, 0x40, 0x80, 52, 0, 0, 0, 0, 0, 0, 0, 0, 0, 0, 0, 52, 0, 32, 0, 1, 0, 40, 0, 0, 0,
     0, 0]

  /** Type, offset, virtual and physical address, file and memory size, flags, alignment. */
  const SMALL_WORDS: seq<seq<byte>> := [
    [1, 0, 0, 0], [84, 0, 0, 0], [0, 0, 0x40, 0x80], [0, 0, 0, 0], [4, 0, 0, 0], [8, 0, 0, 0], [5, 0, 0, 0],
    [0, 0x10, 0, 0]]

  const SMALL_PHDR: seq<byte> :=
    SMALL_WORDS[0] + SMALL_WORDS[1] + SMALL_WORDS[2] + SMALL_WORDS[3] + SMALL_WORDS[4] + SMALL_WORDS[5]
    + (SMALL_WORDS[6] + SMALL_WORDS[7])

  const SMALL_TEXT: seq<byte> := [0x13, 0x05, 0x70, 0x00]

  /** One PT_LOAD segment of four bytes at file offset 84, for eight bytes at 0x80400000. */
  const SMALL_ELF: seq<byte> := SMALL_IDENT + SMALL_EHDR + SMALL_PHDR + SMALL_TEXT

  const SMALL_SEG := Phdr(1, 84, 0x8040_0000, 4, 8)

  lemma SmallParts()
    ensures |SMALL_IDENT| == 16 && |SMALL_EHDR| == 36 && |SMALL_TEXT| == 4
    ensures SMALL_IDENT[..6] == [0x7F, 0x45, 0x4C, 0x46, 1, 1]
    ensures SMALL_EHDR[12..16] == [52, 0, 0, 0] && SMALL_EHDR[26..30] == [32, 0, 1, 0]
  {
    FourOf(SMALL_EHDR, 12);
    FourOf(SMALL_EHDR, 26);
  }

  lemma SmallWords()
    ensures |SMALL_PHDR| == 32 && SMALL_PHDR[0..4] == [1, 0, 0, 0] && SMALL_PHDR[4..8] == [84, 0, 0, 0]
    ensures SMALL_PHDR[8..12] == [0, 0, 0x40, 0x80]
    ensures SMALL_PHDR[16..20] == [4, 0, 0, 0] && SMALL_PHDR[20..24] == [8, 0, 0, 0]
  {
    WordsFrom(SMALL_WORDS[0], SMALL_WORDS[1], SMALL_WORDS[2], SMALL_WORDS[3], SMALL_WORDS[4], SMALL_WORDS[5],
              SMALL_WORDS[6] + SMALL_WORDS[7]);
  }

  lemma WordsFrom(a: seq<byte>, b: seq<byte>, c: seq<byte>, d: seq<byte>, e: seq<byte>, f: seq<byte>, rest: seq<byte>)
    requires |a| == 4 && |b| == 4 && |c| == 4 && |d| == 4 && |e| == 4 && |f| == 4
    ensures var w := a + b + c + d + e + f + rest;
            w[0..4] == a && w[4..8] == b && w[8..12] == c && w[16..20] == e && w[20..24] == f
  {
    assert a + b + c + d + e + f + rest == a + (b + (c + (d + (e + (f + rest)))));
  }

  lemma FourOf(b: seq<byte>, o: nat)
    requires o + 4 <= |b|
    ensures b[o..o + 4] == [b[o], b[o + 1], b[o + 2], b[o + 3]]
  {
  }

  lemma SmallSlices()
    ensures |SMALL_ELF| == 88 && SMALL_ELF[..6] == SMALL_IDENT[..6]
    ensures SMALL_ELF[28..32] == SMALL_EHDR[12..16] && SMALL_ELF[42..46] == SMALL_EHDR[26..30]
    ensures SMALL_ELF[52..84] == SMALL_PHDR && SMALL_ELF[84..88] == SMALL_TEXT
  {
    SmallParts();
    SmallWords();
    SlicesOf(SMALL_IDENT, SMALL_EHDR, SMALL_PHDR, SMALL_TEXT);
  }

  lemma SlicesOf(i: seq<byte>, e: seq<byte>, p: seq<byte>, t: seq<byte>)
    requires |i| == 16 && |e| == 36 && |p| == 32 && |t| == 4
    ensures var b := i + e + p + t;
            && |b| == 88 && b[..6] == i[..6] && b[28..32] == e[12..16] && b[42..46] == e[26..30]
            && b[52..84] == p && b[84..88] == t
  {
  }

  lemma LeWord(b: seq<byte>, o: nat, w: seq<byte>)
    requires o + 4 <= |b| && |w| == 4 && b[o..o + 4] == w
    ensures Le32(b, o) == w[0] + (w[1] as int) * 0x100 + (w[2] as int) * 0x1_0000 + (w[3] as int) * 0x100_0000
    ensures Le16(b, o) == w[0] + (w[1] as int) * 0x100 && Le16(b, o + 2) == w[2] + (w[3] as int) * 0x100
  {
    assert b[o..o + 4][0] == b[o] && b[o..o + 4][1] == b[o + 1] && b[o..o + 4][2] == b[o + 2];
    assert b[o..o + 4][3] == b[o + 3];
  }

  lemma SmallHeader(b: seq<byte>)
    requires |b| == 88 && b[..6] == [0x7F, 0x45, 0x4C, 0x46, 1, 1]
    requires b[28..32] == [52, 0, 0, 0] && b[42..46] == [32, 0, 1, 0]
    ensures EhdrOk(b, 88) && Le32(b, 28) == 52 && Le16(b, 44) == 1
  {
    hide Le32, Le16;
    assert b[..6][..4] == b[0..4] && b[..6][4] == b[4] && b[..6][5] == b[5];
    LeWord(b, 0, [0x7F, 0x45, 0x4C, 0x46]);
    LeWord(b, 28, [52, 0, 0, 0]);
    LeWord(b, 42, [32, 0, 1, 0]);
  }

  lemma SmallSegment(b: seq<byte>)
    requires |b| == 88 && b[52..84] == SMALL_PHDR
    ensures PhdrAt(b, 52) == SMALL_SEG
  {
    hide Le32, Le16;
    SmallWords();
    SubSlice(b, 52, SMALL_PHDR, 0, 4);
    SubSlice(b, 52, SMALL_PHDR, 4, 4);
    SubSlice(b, 52, SMALL_PHDR, 8, 4);
    SubSlice(b, 52, SMALL_PHDR, 16, 4);
    SubSlice(b, 52, SMALL_PHDR, 20, 4);
    LeWord(b, 52, [1, 0, 0, 0]);
    LeWord(b, 56, [84, 0, 0, 0]);
    LeWord(b, 60, [0, 0, 0x40, 0x80]);
    LeWord(b, 68, [4, 0, 0, 0]);
    LeWord(b, 72, [8, 0, 0, 0]);
  }

  lemma SmallRead()
    ensures |SMALL_ELF| == 88 && EhdrOk(SMALL_ELF, 88) && Phdrs(SMALL_ELF, 88) == [SMALL_SEG]
  {
    hide Le32, Le16, PhdrAt, EhdrOk;
    SmallParts();
    SmallSlices();
    SmallHeader(SMALL_ELF);
    SmallSegment(SMALL_ELF);
  }

  function SmallByte(m: seq<byte>, q: nat): byte
    requires q < |m|
  {
    if 0x8040_0000 <= q < 0x8040_0008 then [0x13, 0x05, 0x70, 0, 0, 0, 0, 0][q - 0x8040_0000] else m[q]
  }

  /** Loading it, wherever it was read to: four bytes of the file, four zeros behind them, and nothing else. */
  method LoadSmall(mem: array<byte>, img: nat) returns (hull: Option<(nat, nat)>)
    requires mem.Length == TWO32 && img + 88 <= TWO32 && mem[..][img..img + 88] == SMALL_ELF
    requires img + 88 <= 0x8040_0000 || 0x8040_0008 <= img
    modifies mem
    ensures hull == Some((0x8040_0000, 0x8040_0008))
    ensures forall q :: 0 <= q < TWO32 ==> mem[q] == SmallByte(old(mem[..]), q)
  {
    hide Phdrs, EhdrOk, AfterSegs;
    ghost var m := mem[..];
    SmallRead();
    SmallHull();
    hull := LoadElf(mem, img, 88);
    SmallLoaded(m, img);
  }

  lemma SmallHull()
    ensures SegsOk([SMALL_SEG], 88) && HullLow([SMALL_SEG]) == 0x8040_0000 && HullHigh([SMALL_SEG]) == 0x8040_0008
  {
    assert [SMALL_SEG][..0] == [];
    assert HullLow([]) == TOP && HullHigh([]) == 0;
  }

  lemma SmallLoaded(m: seq<byte>, img: nat)
    requires |m| == TWO32 && img + 88 <= TWO32 && m[img..img + 88] == SMALL_ELF
    requires img + 88 <= 0x8040_0000 || 0x8040_0008 <= img
    ensures SegsOk([SMALL_SEG], 88)
    ensures forall q :: 0 <= q < TWO32 ==> AfterSegs(m, img, 88, [SMALL_SEG])[q] == SmallByte(m, q)
  {
    hide AfterSeg, AfterSegs;
    SmallHull();
    var p, r := SMALL_SEG, AfterSegs(m, img, 88, [SMALL_SEG]);
    LoadRight(m, img, 88, [p]);
    assert p in [p];
    forall q | 0 <= q < TWO32
      ensures r[q] == SmallByte(m, q)
    {
      if InDst(p, q) {
        var k := q - 0x8040_0000;
        assert LoadedAt(r, m, img, 88, p, k);
        if k < 4 {
          SmallSlices();
          SubSlice(m, img, SMALL_ELF, 84, 4);
          assert m[img + 84..img + 88][k] == m[img + 84 + k];
        }
      } else {
        Untouched(m, img, 88, [p], q);
      }
    }
  }
}
