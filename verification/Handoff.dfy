/** From the loaded kernel to the kernel's own view of memory: load, build the map, scan it. */
module Handoff {
  import opened Bytes
  import opened Machine
  import opened MemoryMap
  import opened ElfLoader

  const MEM_BASE: Word := 0x8000_0000

  // ---------- bytes and pages ----------

  /** A byte the map offers to the kernel as free memory. */
  ghost predicate ByteFree(es: seq<Entry>, b: int) {
    exists e :: e in es && e.kind == CONVENTIONAL && e.start <= b < EndOf(e)
  }

  lemma {:induction false} TilesCover(es: seq<Entry>, from: int, to: int, q: int)
    requires Tiles(es, from, to)
    ensures forall e :: e in es ==> e.start % PAGE == 0 && from <= e.start && EndOf(e) <= to
    ensures from <= q < to ==> exists e :: e in es && e.start <= q < EndOf(e)
  {
    if es != [] {
      TilesCover(es[1..], EndOf(es[0]), to, q);
      TilesAccounted(es[1..], EndOf(es[0]), to, EndOf(es[0]));
      assert es[0] in es && forall x :: x in es <==> x == es[0] || x in es[1..];
    }
  }

  function MemStart(base: Word): Word {
    PageUp(base)
  }

  function MemEnd(base: Word, size: Word): Word {
    PageDown(Wrap(base + size))
  }

  predicate Kinds(reqs: seq<Request>) {
    forall q :: q in reqs ==> q.kind != CONVENTIONAL
  }

  /** A byte is offered as free exactly when it is in RAM and no honoured request touches its page. */
  lemma FreeExact(base: Word, size: Word, reqs: seq<Request>, b: Word)
    requires Kinds(reqs) && MemStart(base) < MemEnd(base, size)
    ensures ByteFree(MapOf(base, size, reqs), b)
       <==> MemStart(base) <= b < MemEnd(base, size) && !SomeTouches(reqs, PageDown(b))
  {
    var es, page := MapOf(base, size, reqs), PageDown(b);
    Partition(base, size, reqs);
    TilesCover(es, MemStart(base), MemEnd(base, size), b);
    forall e | e in es && e.start <= b < EndOf(e) ensures e.kind == CONVENTIONAL <==> !SomeTouches(reqs, page) {
      InEntry(e, b);
      ConventionalPage(base, size, reqs, e, page);
    }
  }

  lemma InEntry(e: Entry, b: Word)
    requires e.start % PAGE == 0 && e.start <= b < EndOf(e)
    ensures e.start <= PageDown(b) < EndOf(e)
  {
  }

  /** An honoured request keeps every one of its bytes out of free memory. */
  lemma RequestReserved(base: Word, size: Word, reqs: seq<Request>, q: Request, b: Word)
    requires Kinds(reqs) && q in reqs && q.base <= b < q.base + q.size && Honoured(q.base, q.size)
    ensures !ByteFree(MapOf(base, size, reqs), b)
  {
    if MemStart(base) < MemEnd(base, size) {
      FreeExact(base, size, reqs, b);
      assert Touched(q.base, q.size, PageDown(b));
    }
  }

  /** Exactly when a range stays out of free memory: it is honoured, or the other requests cover all its pages. */
  lemma RangeReserved(base: Word, size: Word, before: seq<Request>, q: Request, after: seq<Request>)
    requires Kinds(before + [q] + after) && MemStart(base) < MemEnd(base, size) && q.size != 0
    requires q.base + q.size < TWO32
    ensures (forall b: Word :: q.base <= b < q.base + q.size ==> !ByteFree(MapOf(base, size, before + [q] + after), b))
       <==> (Honoured(q.base, q.size)
             || forall b: Word :: q.base <= b < q.base + q.size && MemStart(base) <= b < MemEnd(base, size) ==>
                  SomeTouches(before + after, PageDown(b)))
  {
    var reqs := before + [q] + after;
    assert q in reqs && forall x :: x in reqs <==> x == q || x in before + after;
    forall b: Word | q.base <= b < q.base + q.size
      ensures ByteFree(MapOf(base, size, reqs), b)
         <==> && MemStart(base) <= b < MemEnd(base, size) && !SomeTouches(before + after, PageDown(b))
              && !Honoured(q.base, q.size)
    {
      FreeExact(base, size, reqs, b);
      assert Touched(q.base, q.size, PageDown(b));
      TouchSplit(reqs, before + after, q, PageDown(b));
    }
  }

  lemma TouchSplit(reqs: seq<Request>, others: seq<Request>, q: Request, page: int)
    requires forall x :: x in reqs <==> x == q || x in others
    requires q.size != 0 && Touched(q.base, q.size, page)
    ensures SomeTouches(reqs, page) <==> Honoured(q.base, q.size) || SomeTouches(others, page)
  {
    assert q in reqs;
    if Honoured(q.base, q.size) {
      assert SomeTouches(reqs, page);
    } else if SomeTouches(reqs, page) {
      var x :| x in reqs && x.size != 0 && Honoured(x.base, x.size) && Touched(x.base, x.size, page);
      assert x in others;
    }
  }

  /** The failing family has members: a segment at address zero makes the hull start at zero, and the kernel's own
      pages are offered as free. */
  lemma ZeroBasedHull()
    ensures var none := Request(0, 0, LOADER_DATA);
            var qs := Requests(Request(0x8020_0000, 0x1_0000, 0), Request(0, 0x8050_0000, 0), none, none);
            ByteFree(MapOf(MEM_BASE, 0x800_0000, qs), 0x8040_0000)
  {
    var none := Request(0, 0, LOADER_DATA);
    var reqs := Requests(Request(0x8020_0000, 0x1_0000, 0), Request(0, 0x8050_0000, 0), none, none);
    FreeExact(MEM_BASE, 0x800_0000, reqs, 0x8040_0000);
  }

  // ---------- the handoff ----------

  /** What the kernel is told. */
  datatype BootArgs = BootArgs(memSize: Word, kernelBase: Word, kernelSize: Word, dtb: Word, dtbSize: Word,
                               initrd: Word, initrdSize: Word, mapCount: nat)

  function RequestsOf(image: Request, a: BootArgs): (r: seq<Request>)
    ensures Kinds(r)
  {
    Requests(image, Request(a.kernelBase, a.kernelSize, 0), Request(a.dtb, a.dtbSize, 0),
             Request(a.initrd, a.initrdSize, 0))
  }

  /** Load the kernel, fill the boot arguments, build the map. */
  method Boot(mem: array<byte>, map_: array<Entry>, img: nat, size: nat, memMb: nat, image: Request, dtb: Word,
              initrd: Word, initrdSize: Word)
    returns (args: Option<BootArgs>)
    requires mem.Length == TWO32 && img + size <= TWO32 && map_.Length == MAP_MAX && memMb < TWO32
    requires dtb != 0 ==> dtb + 8 <= TWO32
    modifies mem, map_
    ensures var elf := old(mem[..])[img..img + size];
            args.Some? <==> && EhdrOk(elf, size)
                            && var phs := Phdrs(elf, size); SegsOk(phs, size) && HullLow(phs) < HullHigh(phs)
    ensures args.Some? ==>
              var a, phs := args.value, Phdrs(old(mem[..])[img..img + size], size);
              && mem[..] == AfterSegs(old(mem[..]), img, size, phs)
              && a.kernelBase == HullLow(phs) && a.kernelBase + a.kernelSize == HullHigh(phs)
              && a.memSize == Wrap(memMb * 0x10_0000) && a.initrd == initrd && a.initrdSize == initrdSize
              && a.dtb == dtb && a.dtbSize == (if dtb == 0 then 0 else Be32(mem[..], dtb + 4))
              && a.mapCount <= 11 && map_[..a.mapCount] == MapOf(MEM_BASE, a.memSize, RequestsOf(image, a))
  {
    hide AfterSegs, SegsOk, EhdrOk, Phdrs, MapOf, Be32;
    ghost var m := mem[..];
    var hull := LoadElf(mem, img, size);
    if hull.None? {
      return None;
    }
    var (low, high) := hull.value;
    HullTop(Phdrs(m[img..img + size], size), size);
    var dtbSize: Word := 0;
    if dtb != 0 {
      dtbSize := Be32(mem[..], dtb + 4);
    }
    var memSize := Wrap(memMb * 0x10_0000);
    var kernelSize: Word := high - low;
    var count := BuildMap(map_, MEM_BASE, memSize, image, Request(low, kernelSize, 0), Request(dtb, dtbSize, 0),
                          Request(initrd, initrdSize, 0));
    return Some(BootArgs(memSize, low, kernelSize, dtb, dtbSize, initrd, initrdSize, count));
  }

  /** No byte the loader wrote is offered as free, when the hull is honoured. */
  lemma KernelNotFree(image: Request, a: BootArgs, phs: seq<Phdr>, p: Phdr, b: Word)
    requires a.kernelBase == HullLow(phs) && a.kernelBase + a.kernelSize == HullHigh(phs)
    requires Honoured(a.kernelBase, a.kernelSize)
    requires p in phs && InDst(p, b)
    ensures !ByteFree(MapOf(MEM_BASE, a.memSize, RequestsOf(image, a)), b)
  {
    var q := Request(a.kernelBase, a.kernelSize, LOADER_CODE);
    assert RequestsOf(image, a)[2] == q;
    RequestReserved(MEM_BASE, a.memSize, RequestsOf(image, a), q, b);
  }

  /** No byte of the OpenSBI slot, the booter's image, the device tree or the initrd is offered as free. */
  lemma OthersNotFree(image: Request, a: BootArgs, b: Word)
    ensures OPENSBI_BASE <= b < OPENSBI_BASE + OPENSBI_RESERVED ==>
              !ByteFree(MapOf(MEM_BASE, a.memSize, RequestsOf(image, a)), b)
    ensures image.base <= b < image.base + image.size && Honoured(image.base, image.size) ==>
              !ByteFree(MapOf(MEM_BASE, a.memSize, RequestsOf(image, a)), b)
    ensures a.dtb <= b < a.dtb + a.dtbSize && Honoured(a.dtb, a.dtbSize) ==>
              !ByteFree(MapOf(MEM_BASE, a.memSize, RequestsOf(image, a)), b)
    ensures a.initrd <= b < a.initrd + a.initrdSize && Honoured(a.initrd, a.initrdSize) ==>
              !ByteFree(MapOf(MEM_BASE, a.memSize, RequestsOf(image, a)), b)
  {
    hide MapOf;
    var reqs := RequestsOf(image, a);
    assert reqs[0] in reqs && reqs[1] in reqs && reqs[3] in reqs && reqs[4] in reqs;
    if OPENSBI_BASE <= b < OPENSBI_BASE + OPENSBI_RESERVED {
      RequestReserved(MEM_BASE, a.memSize, reqs, reqs[0], b);
    }
    if image.base <= b < image.base + image.size && Honoured(image.base, image.size) {
      RequestReserved(MEM_BASE, a.memSize, reqs, reqs[1], b);
    }
    if a.dtb <= b < a.dtb + a.dtbSize && Honoured(a.dtb, a.dtbSize) {
      RequestReserved(MEM_BASE, a.memSize, reqs, reqs[3], b);
    }
    if a.initrd <= b < a.initrd + a.initrdSize && Honoured(a.initrd, a.initrdSize) {
      RequestReserved(MEM_BASE, a.memSize, reqs, reqs[4], b);
    }
  }

  /** The kernel's accounting of the map it is handed. */
  method KernelScan(map_: seq<Entry>, a: BootArgs, ghost image: Request) returns (info: MemInfo)
    requires a.mapCount <= 11 && a.mapCount <= |map_|
    requires map_[..a.mapCount] == MapOf(MEM_BASE, a.memSize, RequestsOf(image, a))
    ensures var memEnd := MemEnd(MEM_BASE, a.memSize);
            0x8000_0000 < memEnd ==>
              && info.overlaps == 0 && (info.conventional + info.reserved) * PAGE == memEnd - 0x8000_0000
                  && info.maxEnd == memEnd
              && (info.firstFree == 0 <==> info.conventional == 0)
              && (info.firstFree != 0 ==> ByteFree(map_[..a.mapCount], info.firstFree)
                                          && forall b :: b < info.firstFree ==> !ByteFree(map_[..a.mapCount], b))
  {
    hide MapOf, Tiles, PagesIn, OverlapsAfter, FirstFree, MaxEnd;
    info := ScanMap(map_, a.mapCount);
    ghost var es := map_[..a.mapCount];
    ghost var memEnd := MemEnd(MEM_BASE, a.memSize);
    if MEM_BASE < memEnd {
      Partition(MEM_BASE, a.memSize, RequestsOf(image, a));
      ScanTiles(es, MEM_BASE, memEnd);
    }
  }

  lemma ScanTiles(es: seq<Entry>, from: Word, to: Word)
    requires Tiles(es, from, to) && 0 < from < to
    ensures es != [] && OverlapsAfter(es[1..], EndOf(es[0])) == 0
    ensures (PagesIn(es, true) + PagesIn(es, false)) * PAGE == to - from && MaxEnd(es, 0) == to
    ensures var f := FirstFree(es, 0);
            && (f == 0 <==> PagesIn(es, true) == 0)
            && (f != 0 ==> ByteFree(es, f) && forall b :: b < f ==> !ByteFree(es, b))
  {
    TilesAccounted(es, from, to, 0);
    TilesAccounted(es[1..], EndOf(es[0]), to, 0);
    FirstFreeLowest(es, from, to);
    FreePages(es, from, to);
    TilesNonEmpty(es, from, to);
  }

  lemma {:induction false} TilesNonEmpty(es: seq<Entry>, from: int, to: int)
    requires Tiles(es, from, to)
    ensures forall e :: e in es ==> 0 < e.pages
  {
    if es != [] {
      TilesNonEmpty(es[1..], EndOf(es[0]), to);
    }
  }

  lemma {:induction false} FreePages(es: seq<Entry>, from: int, to: int)
    requires Tiles(es, from, to)
    ensures PagesIn(es, true) == 0 <==> forall e :: e in es ==> e.kind != CONVENTIONAL
  {
    if es != [] {
      assert es[0] in es && forall x :: x in es <==> x == es[0] || x in es[1..];
      FreePages(es[1..], EndOf(es[0]), to);
    }
  }

  /** The kernel's own bytes and every reserved area stay out of the memory the kernel will take as free. */
  ghost predicate Protected(es: seq<Entry>, image: Request, a: BootArgs, phs: seq<Phdr>) {
    && (Honoured(a.kernelBase, a.kernelSize) ==> forall p, b: Word :: p in phs && InDst(p, b) ==> !ByteFree(es, b))
    && (forall b: Word :: OPENSBI_BASE <= b < OPENSBI_BASE + OPENSBI_RESERVED ==> !ByteFree(es, b))
    && (Honoured(image.base, image.size) ==> forall b: Word :: image.base <= b < image.base + image.size ==>
        !ByteFree(es, b))
    && (Honoured(a.dtb, a.dtbSize) ==> forall b: Word :: a.dtb <= b < a.dtb + a.dtbSize ==> !ByteFree(es, b))
    && (Honoured(a.initrd, a.initrdSize) ==> forall b: Word :: a.initrd <= b < a.initrd + a.initrdSize ==>
        !ByteFree(es, b))
  }

  lemma AllProtected(image: Request, a: BootArgs, phs: seq<Phdr>)
    requires a.kernelBase == HullLow(phs) && a.kernelBase + a.kernelSize == HullHigh(phs)
    ensures Protected(MapOf(MEM_BASE, a.memSize, RequestsOf(image, a)), image, a, phs)
  {
    hide MapOf, ByteFree, RequestsOf;
    var es := MapOf(MEM_BASE, a.memSize, RequestsOf(image, a));
    if Honoured(a.kernelBase, a.kernelSize) {
      forall p, b: Word | p in phs && InDst(p, b) ensures !ByteFree(es, b) {
        KernelNotFree(image, a, phs, p, b);
      }
    }
    forall b: Word
      ensures OPENSBI_BASE <= b < OPENSBI_BASE + OPENSBI_RESERVED ==> !ByteFree(es, b)
      ensures image.base <= b < image.base + image.size && Honoured(image.base, image.size) ==> !ByteFree(es, b)
      ensures a.dtb <= b < a.dtb + a.dtbSize && Honoured(a.dtb, a.dtbSize) ==> !ByteFree(es, b)
      ensures a.initrd <= b < a.initrd + a.initrdSize && Honoured(a.initrd, a.initrdSize) ==> !ByteFree(es, b)
    {
      OthersNotFree(image, a, b);
    }
  }

  /** The whole handoff: load, describe memory, and the kernel's accounting of what it is given. */
  method BootAndScan(mem: array<byte>, map_: array<Entry>, img: nat, size: nat, memMb: nat, image: Request, dtb: Word,
                     initrd: Word, initrdSize: Word)
    returns (args: Option<BootArgs>, info: MemInfo)
    requires mem.Length == TWO32 && img + size <= TWO32 && map_.Length == MAP_MAX && memMb < TWO32
    requires dtb != 0 ==> dtb + 8 <= TWO32
    modifies mem, map_
    ensures args.Some? ==>
              var a, es := args.value, map_[..Count(args.value)];
              && EhdrOk(old(mem[..])[img..img + size], size)
              && Protected(es, image, a, Phdrs(old(mem[..])[img..img + size], size))
              && (MEM_BASE < MemEnd(MEM_BASE, a.memSize) ==>
                    && info.overlaps == 0 && info.maxEnd == MemEnd(MEM_BASE, a.memSize)
                    && (info.conventional + info.reserved) * PAGE == info.maxEnd - MEM_BASE
                    && (info.firstFree != 0 ==> ByteFree(es, info.firstFree)))
  {
    hide AfterSegs, SegsOk, EhdrOk, Phdrs, MapOf, ByteFree, Protected, HullLow, HullHigh;
    ghost var elf := mem[img..img + size];
    args := Boot(mem, map_, img, size, memMb, image, dtb, initrd, initrdSize);
    info := MemInfo(0, 0, 0, 0, 0);
    if args.Some? {
      AllProtected(image, args.value, Phdrs(elf, size));
      info := KernelScan(map_[..], args.value, image);
      assert map_[..][..args.value.mapCount] == map_[..args.value.mapCount];
    }
  }

  function Count(a: BootArgs): (n: nat)
    ensures n <= MAP_MAX
  {
    if a.mapCount <= MAP_MAX then a.mapCount else MAP_MAX
  }
}
