/**
  The ELF32 loader of the booter: headers copied aside first, then every PT_LOAD segment copied
  byte by byte, forwards, inside one memory that also holds the image.
  */
module ElfLoader {
  import opened Bytes
  import opened ForwardCopy

  const EHDR_SIZE := 52
  const PHDR_SIZE := 32
  const MAX_PHDRS := 16
  const ELF_MAGIC := 0x464c457f
  const PT_LOAD := 1
  const TOP := 0xFFFF_FFFF

  datatype Phdr = Phdr(kind: nat, offset: nat, vaddr: nat, filesz: nat, memsz: nat)

  // ---------- headers ----------

  predicate EhdrOk(b: seq<byte>, size: nat)
    requires size <= |b|
  {
    && EHDR_SIZE <= size
    && Le32(b, 0) == ELF_MAGIC && b[4] == 1 && b[5] == 1
    && Le16(b, 42) == PHDR_SIZE && 0 < Le16(b, 44) <= MAX_PHDRS
    && Le32(b, 28) <= size && Le16(b, 44) * PHDR_SIZE <= size - Le32(b, 28)
  }

  function PhdrAt(b: seq<byte>, o: nat): (p: Phdr)
    requires o + PHDR_SIZE <= |b|
    ensures p.offset < TWO32 && p.vaddr < TWO32 && p.filesz < TWO32 && p.memsz < TWO32
  {
    Phdr(Le32(b, o), Le32(b, o + 4), Le32(b, o + 8), Le32(b, o + 16), Le32(b, o + 20))
  }

  function Phdrs(b: seq<byte>, size: nat): (r: seq<Phdr>)
    requires size <= |b| && EhdrOk(b, size)
    ensures |r| == Le16(b, 44)
    ensures forall p :: p in r ==> p.offset < TWO32 && p.vaddr < TWO32 && p.filesz < TWO32 && p.memsz < TWO32
  {
    seq(Le16(b, 44), i requires 0 <= i < Le16(b, 44) => PhdrAt(b, Le32(b, 28) + i * PHDR_SIZE))
  }

  /** A segment the loader accepts; anything that is not PT_LOAD is skipped. */
  predicate SegOk(p: Phdr, size: nat) {
    p.kind == PT_LOAD ==> p.filesz <= p.memsz && p.offset + p.filesz <= size && p.vaddr + p.memsz < TWO32
  }

  predicate SegsOk(phs: seq<Phdr>, size: nat) {
    forall p :: p in phs ==> SegOk(p, size)
  }

  // ---------- memory ----------

  method FillZero(mem: array<byte>, at: nat, n: nat)
    requires at + n <= mem.Length
    modifies mem
    ensures mem[..] == Patch(old(mem[..]), at, Zeros(n))
  {
    ghost var m := mem[..];
    for k := 0 to n
      invariant forall q :: 0 <= q < mem.Length ==> mem[q] == if at <= q < at + k then 0 else m[q]
    {
      mem[at + k] := 0;
    }
  }

  // ---------- segments ----------

  /** Memory after one program header. */
  function AfterSeg(m: seq<byte>, img: nat, size: nat, p: Phdr): (r: seq<byte>)
    requires |m| == TWO32 && img + size <= |m| && SegOk(p, size)
    ensures |r| == |m|
  {
    if p.kind != PT_LOAD then m
    else Patch(Copied(m, p.vaddr, img + p.offset, p.filesz), p.vaddr + p.filesz, Zeros(p.memsz - p.filesz))
  }

  function AfterSegs(m: seq<byte>, img: nat, size: nat, phs: seq<Phdr>): (r: seq<byte>)
    requires |m| == TWO32 && img + size <= |m| && SegsOk(phs, size)
    ensures |r| == |m|
  {
    if phs == [] then m
    else
      var last := phs[|phs| - 1];
      assert last in phs;
      AfterSeg(AfterSegs(m, img, size, phs[..|phs| - 1]), img, size, last)
  }

  lemma SegsStep(m: seq<byte>, img: nat, size: nat, phs: seq<Phdr>, i: nat)
    requires |m| == TWO32 && img + size <= |m| && i < |phs| && SegsOk(phs[..i], size) && SegOk(phs[i], size)
    ensures SegsOk(phs[..i + 1], size)
    ensures AfterSegs(m, img, size, phs[..i + 1]) == AfterSeg(AfterSegs(m, img, size, phs[..i]), img, size, phs[i])
  {
    hide AfterSeg;
    assert phs[..i + 1][..i] == phs[..i];
  }

  predicate InDst(p: Phdr, q: nat) {
    p.kind == PT_LOAD && p.vaddr <= q < p.vaddr + p.memsz
  }

  predicate InSrc(p: Phdr, img: nat, q: nat) {
    p.kind == PT_LOAD && img + p.offset <= q < img + p.offset + p.filesz
  }

  /** Bytes no segment targets stay as they were, whatever the overlaps. */
  lemma {:induction false} Untouched(m: seq<byte>, img: nat, size: nat, phs: seq<Phdr>, q: nat)
    requires |m| == TWO32 && img + size <= |m| && SegsOk(phs, size) && q < |m|
    requires forall p :: p in phs ==> !InDst(p, q)
    ensures AfterSegs(m, img, size, phs)[q] == m[q]
  {
    if phs != [] {
      var init, last := phs[..|phs| - 1], phs[|phs| - 1];
      assert last in phs;
      Untouched(m, img, size, init, q);
      SegFrame(AfterSegs(m, img, size, init), img, size, last, q);
    }
  }

  lemma SegFrame(m: seq<byte>, img: nat, size: nat, p: Phdr, q: nat)
    requires |m| == TWO32 && img + size <= |m| && SegOk(p, size) && q < |m| && !InDst(p, q)
    ensures AfterSeg(m, img, size, p)[q] == m[q]
  {
    if p.kind == PT_LOAD {
      CopyFrame(m, p.vaddr, img + p.offset, p.filesz, q);
    }
  }

  lemma {:induction false} CopyFrame(m: seq<byte>, dst: nat, src: nat, n: nat, q: nat)
    requires dst + n <= |m| && src + n <= |m| && q < |m| && !(dst <= q < dst + n)
    ensures Copied(m, dst, src, n)[q] == m[q]
  {
    if n != 0 {
      CopyFrame(m, dst, src, n - 1, q);
    }
  }

  /** The segment's memory holds the image's file bytes, then zeros. */
  ghost predicate Loaded(m: seq<byte>, original: seq<byte>, img: nat, size: nat, p: Phdr)
    requires |m| == |original| == TWO32 && img + size <= TWO32 && SegOk(p, size)
  {
    p.kind == PT_LOAD ==> forall k :: 0 <= k < p.memsz ==> LoadedAt(m, original, img, size, p, k)
  }

  predicate LoadedAt(m: seq<byte>, original: seq<byte>, img: nat, size: nat, p: Phdr, k: nat)
    requires |m| == |original| == TWO32 && img + size <= TWO32 && SegOk(p, size) && p.kind == PT_LOAD && k < p.memsz
  {
    m[p.vaddr + k] == if k < p.filesz then original[img + p.offset + k] else 0
  }

  lemma SegLoads(m: seq<byte>, original: seq<byte>, img: nat, size: nat, p: Phdr)
    requires |m| == |original| == TWO32 && img + size <= TWO32 && SegOk(p, size)
    requires p.kind == PT_LOAD ==> CopySafe(p.vaddr, img + p.offset, p.filesz)
    requires forall q :: 0 <= q < TWO32 && InSrc(p, img, q) ==> m[q] == original[q]
    ensures Loaded(AfterSeg(m, img, size, p), original, img, size, p)
  {
    if p.kind == PT_LOAD {
      var r := AfterSeg(m, img, size, p);
      forall k | 0 <= k < p.memsz ensures LoadedAt(r, original, img, size, p, k) {
        CopyRight(m, p.vaddr, img + p.offset, p.filesz, p.vaddr + k);
        if k < p.filesz {
          assert InSrc(p, img, img + p.offset + k);
        }
      }
    }
  }

  /** Destinations pairwise apart, no copy over its own unread source, no copy over a later source. */
  ghost predicate Placed(phs: seq<Phdr>, img: nat) {
    && (forall i, j, q :: 0 <= i < j < |phs| && InDst(phs[i], q) ==> !InDst(phs[j], q) && !InSrc(phs[j], img, q))
    && (forall p :: p in phs && p.kind == PT_LOAD ==> CopySafe(p.vaddr, img + p.offset, p.filesz))
  }

  /** On a placed list every segment ends up with the image's original bytes, even where the headers or other parts of
      the image were overwritten. */
  lemma {:induction false} LoadRight(m: seq<byte>, img: nat, size: nat, phs: seq<Phdr>)
    requires |m| == TWO32 && img + size <= |m| && SegsOk(phs, size) && Placed(phs, img)
    ensures forall p :: p in phs ==> Loaded(AfterSegs(m, img, size, phs), m, img, size, p)
  {
    hide AfterSeg, AfterSegs, CopySafe, Loaded, SegOk;
    if phs != [] {
      var n := |phs| - 1;
      var init, last := phs[..n], phs[n];
      assert last in phs && forall p :: p in init ==> p in phs;
      assert phs[..n + 1] == phs;
      SegsStep(m, img, size, phs, n);
      LoadRight(m, img, size, init);
      var before, after := AfterSegs(m, img, size, init), AfterSegs(m, img, size, phs);
      forall q | 0 <= q < TWO32 && InSrc(last, img, q) ensures before[q] == m[q] {
        forall p | p in init ensures !InDst(p, q) {
          var i :| 0 <= i < n && init[i] == p;
          assert phs[i] == p;
        }
        Untouched(m, img, size, init, q);
      }
      SegLoads(before, m, img, size, last);
      forall p | p in phs ensures Loaded(after, m, img, size, p) {
        if p in init {
          EarlierKept(m, img, size, phs, p);
        }
      }
    }
  }

  lemma EarlierKept(m: seq<byte>, img: nat, size: nat, phs: seq<Phdr>, p: Phdr)
    requires |m| == TWO32 && img + size <= |m| && SegsOk(phs, size) && Placed(phs, img) && phs != []
    requires p in phs[..|phs| - 1] && p in phs && SegsOk(phs[..|phs| - 1], size)
    requires Loaded(AfterSegs(m, img, size, phs[..|phs| - 1]), m, img, size, p)
    ensures Loaded(AfterSegs(m, img, size, phs), m, img, size, p)
  {
    hide AfterSeg, AfterSegs, CopySafe, LoadedAt, InSrc;
    if p.kind == PT_LOAD {
      var n := |phs| - 1;
      assert phs[..n + 1] == phs && phs[n] in phs;
      SegsStep(m, img, size, phs, n);
      var before, after, last := AfterSegs(m, img, size, phs[..n]), AfterSegs(m, img, size, phs), phs[n];
      var i :| 0 <= i < n && phs[i] == p;
      assert last in phs;
      forall k | 0 <= k < p.memsz ensures LoadedAt(after, m, img, size, p, k) {
        assert LoadedAt(before, m, img, size, p, k);
        assert InDst(phs[i], p.vaddr + k);
        SegFrame(before, img, size, last, p.vaddr + k);
        SameLoaded(before, after, m, img, size, p, k);
      }
    }
  }

  lemma SameLoaded(a: seq<byte>, b: seq<byte>, m: seq<byte>, img: nat, size: nat, p: Phdr, k: nat)
    requires |a| == |b| == |m| == TWO32 && img + size <= TWO32 && SegOk(p, size) && p.kind == PT_LOAD && k < p.memsz
    requires LoadedAt(a, m, img, size, p, k) && b[p.vaddr + k] == a[p.vaddr + k]
    ensures LoadedAt(b, m, img, size, p, k)
  {
  }

  // ---------- the hull ----------

  function HullLow(phs: seq<Phdr>): (r: nat)
    ensures r <= TOP
    ensures forall p :: p in phs && p.kind == PT_LOAD ==> r <= p.vaddr
    ensures r == TOP || exists p :: p in phs && p.kind == PT_LOAD && p.vaddr == r
  {
    if phs == [] then TOP
    else
      var last, low := phs[|phs| - 1], HullLow(phs[..|phs| - 1]);
      if last.kind == PT_LOAD && last.vaddr < low then assert last in phs; last.vaddr else low
  }

  function HullHigh(phs: seq<Phdr>): (r: nat)
    ensures forall p :: p in phs && p.kind == PT_LOAD ==> p.vaddr + p.memsz <= r
    ensures r == 0 || exists p :: p in phs && p.kind == PT_LOAD && p.vaddr + p.memsz == r
  {
    if phs == [] then 0
    else
      var last, high := phs[|phs| - 1], HullHigh(phs[..|phs| - 1]);
      if last.kind == PT_LOAD && last.vaddr + last.memsz > high then assert last in phs; last.vaddr + last.memsz
          else high
  }

  // ---------- the loader ----------

  /** One program header: check, widen the hull, copy and zero. */
  method LoadSegment(mem: array<byte>, img: nat, size: nat, p: Phdr, low: nat, high: nat)
    returns (ok: bool, low': nat, high': nat)
    requires mem.Length == TWO32 && img + size <= TWO32
    requires p.offset < TWO32 && p.vaddr < TWO32 && p.filesz < TWO32 && p.memsz < TWO32
    modifies mem
    ensures ok <==> SegOk(p, size)
    ensures !ok ==> mem[..] == old(mem[..])
    ensures ok ==> && mem[..] == AfterSeg(old(mem[..]), img, size, p)
                   && low' == (if p.kind == PT_LOAD && p.vaddr < low then p.vaddr else low)
                   && high' == (if p.kind == PT_LOAD && p.vaddr + p.memsz > high then p.vaddr + p.memsz else high)
  {
    hide Copied, Patch, Zeros;
    low', high' := low, high;
    if p.kind != PT_LOAD {
      return true, low, high;
    }
    if p.memsz < p.filesz || p.offset > size || p.filesz > size - p.offset {
      return false, low, high;
    }
    var end := (p.vaddr + p.memsz) % TWO32;
    if end < p.vaddr {
      return false, low, high;
    }
    if p.vaddr < low {
      low' := p.vaddr;
    }
    if end > high {
      high' := end;
    }
    CopyForward(mem, p.vaddr, img + p.offset, p.filesz);
    FillZero(mem, p.vaddr + p.filesz, p.memsz - p.filesz);
    ok := true;
  }

  /** The snapshot of the header and of the program headers. */
  method ReadHeaders(image: seq<byte>, size: nat) returns (phs: Option<seq<Phdr>>)
    requires size <= |image|
    ensures phs.Some? <==> EhdrOk(image, size)
    ensures phs.Some? ==> phs.value == Phdrs(image, size)
  {
    if size < EHDR_SIZE {
      return None;
    }
    var header := image[..EHDR_SIZE];
    if Le32(header, 0) != ELF_MAGIC || header[4] != 1 || header[5] != 1 {
      return None;
    }
    if Le16(header, 42) != PHDR_SIZE {
      return None;
    }
    var phnum, phoff := Le16(header, 44), Le32(header, 28);
    if phnum == 0 || phnum > MAX_PHDRS {
      return None;
    }
    if phoff > size || phnum * PHDR_SIZE > size - phoff {
      return None;
    }
    var out := [];
    for i := 0 to phnum
      invariant |out| == i && forall k :: 0 <= k < i ==> out[k] == Phdrs(image, size)[k]
    {
      out := out + [PhdrAt(image, phoff + i * PHDR_SIZE)];
    }
    return Some(out);
  }

  /** `elf32_load_and_jump` up to the jump: the hull of the segments, or failure. */
  method LoadElf(mem: array<byte>, img: nat, size: nat) returns (hull: Option<(nat, nat)>)
    requires mem.Length == TWO32 && img + size <= TWO32
    modifies mem
    ensures var image := old(mem[..])[img..img + size];
            hull.Some? <==> && EhdrOk(image, size)
                            && var phs := Phdrs(image, size); SegsOk(phs, size) && HullLow(phs) < HullHigh(phs)
    ensures var image := old(mem[..])[img..img + size];
            hull.Some? ==>
              var phs := Phdrs(image, size);
              hull.value == (HullLow(phs), HullHigh(phs)) && mem[..] == AfterSegs(old(mem[..]), img, size, phs)
    ensures var image := old(mem[..])[img..img + size];
            if !EhdrOk(image, size) then mem[..] == old(mem[..])
            else exists n :: 0 <= n <= |Phdrs(image, size)| && SegsOk(Phdrs(image, size)[..n], size)
                             && mem[..] == AfterSegs(old(mem[..]), img, size, Phdrs(image, size)[..n])
  {
    hide AfterSeg, AfterSegs, Phdrs, EhdrOk, SegOk, HullLow, HullHigh;
    ghost var m := mem[..];
    var read := ReadHeaders(mem[img..img + size], size);
    if read.None? {
      return None;
    }
    var phs := read.value;
    var low: nat, high: nat := TOP, 0;
    NoSegs(m, img, size);
    assert phs[..0] == [];
    for i := 0 to |phs|
      invariant SegsOk(phs[..i], size)
      invariant mem[..] == AfterSegs(m, img, size, phs[..i])
      invariant low == HullLow(phs[..i]) && high == HullHigh(phs[..i])
    {
      assert phs[i] in phs;
      var ok;
      ok, low, high := LoadSegment(mem, img, size, phs[i], low, high);
      if !ok {
        return None;
      }
      SegsStep(m, img, size, phs, i);
      HullStep(phs, i);
    }
    assert phs[..|phs|] == phs;
    HullTop(phs, size);
    if low == TOP || high <= low {
      return None;
    }
    return Some((low, high));
  }

  lemma NoSegs(m: seq<byte>, img: nat, size: nat)
    requires |m| == TWO32 && img + size <= |m|
    ensures AfterSegs(m, img, size, []) == m && HullLow([]) == TOP && HullHigh([]) == 0
  {
  }

  lemma HullStep(phs: seq<Phdr>, i: nat)
    requires i < |phs|
    ensures var p, low, high := phs[i], HullLow(phs[..i]), HullHigh(phs[..i]);
            && HullLow(phs[..i + 1]) == (if p.kind == PT_LOAD && p.vaddr < low then p.vaddr else low)
            && HullHigh(phs[..i + 1]) == (if p.kind == PT_LOAD && p.vaddr + p.memsz > high then p.vaddr + p.memsz
                                          else high)
  {
    assert phs[..i + 1][..i] == phs[..i];
  }

  /** A hull that starts at the last address is empty. */
  lemma HullTop(phs: seq<Phdr>, size: nat)
    requires SegsOk(phs, size)
    ensures HullHigh(phs) <= TOP
  {
  }
}
