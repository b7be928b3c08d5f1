/**
  The memory map the booter hands to the kernel: reserved ranges clipped to RAM and kept sorted,
  then one sweep that tiles RAM. All arithmetic is on 32-bit words.
  */
module MemoryMap {
  import opened Bytes
  import opened Machine

  const MAP_MAX := 16
  const LOADER_CODE := 1
  const LOADER_DATA := 2
  const CONVENTIONAL := 7
  const OPENSBI_BASE := 0x8000_0000
  const OPENSBI_RESERVED := 0x20_0000

  datatype Range = Range(start: Word, end: Word, kind: nat)

  datatype Entry = Entry(kind: nat, start: Word, pages: nat)

  // ---------- one reservation ----------

  /** What is kept of a request: nothing, or the pages it touches, clipped to RAM. */
  function Clip(memStart: Word, memEnd: Word, base: Word, size: Word, kind: nat): Option<Range> {
    if base == 0 || size == 0 || Wrap(base + size) < base then None
    else
      var start, end := PageDown(base), PageUp(Wrap(base + size));
      if end <= memStart || start >= memEnd then None
      else
        var s, e := if start < memStart then memStart else start, if end > memEnd then memEnd else end;
        if e <= s then None else Some(Range(s, e, kind))
  }

  /** The pages of RAM that hold a byte of `[base, base + size)`. */
  predicate Touched(base: Word, size: Word, page: int) {
    base < page + PAGE && page < base + size
  }

  predicate RamPage(memStart: Word, memEnd: Word, page: int) {
    memStart <= page < memEnd && page % PAGE == 0
  }

  predicate Covers(r: Range, page: int) {
    r.start <= page < r.end
  }

  /** A request the code honours: it does not start at zero and its end survives the rounding. */
  predicate Honoured(base: Word, size: Word) {
    base != 0 && base + size <= LAST_PAGE
  }

  /** The kept range is exactly the touched pages of RAM when the request is honoured, and nothing otherwise. */
  lemma ClipExact(memStart: Word, memEnd: Word, base: Word, size: Word, kind: nat, page: int)
    requires memStart % PAGE == 0 && memEnd % PAGE == 0 && RamPage(memStart, memEnd, page) && size != 0
    ensures var c := Clip(memStart, memEnd, base, size, kind);
            (c.Some? && Covers(c.value, page)) <==> Honoured(base, size) && Touched(base, size, page)
  {
    hide PageUp, PageDown;
    AlignedAbove(page, base);
    if base + size <= LAST_PAGE {
      AlignedBelow(page, base + size, PageUp(base + size));
    } else {
      NotKept(memStart, memEnd, base, size, kind);
    }
  }

  /** An end past the last page is dropped: it wraps at once or its rounding does. */
  lemma NotKept(memStart: Word, memEnd: Word, base: Word, size: Word, kind: nat)
    requires base + size > LAST_PAGE
    ensures Clip(memStart, memEnd, base, size, kind).None?
  {
    hide PageUp, PageDown;
  }

  lemma AlignedBelow(page: int, x: int, up: int)
    requires page % PAGE == 0 && up % PAGE == 0 && x <= up < x + PAGE
    ensures page < up <==> page < x
  {
  }

  lemma AlignedAbove(page: int, x: Word)
    requires page % PAGE == 0
    ensures PageDown(x) <= page <==> x < page + PAGE
  {
  }

  predicate InRam(memStart: Word, memEnd: Word, r: Range) {
    memStart <= r.start < r.end <= memEnd && r.start % PAGE == 0 && r.end % PAGE == 0
  }

  lemma ClipInRam(memStart: Word, memEnd: Word, base: Word, size: Word, kind: nat)
    requires memStart % PAGE == 0 && memEnd % PAGE == 0
    ensures var c := Clip(memStart, memEnd, base, size, kind);
            c.Some? ==> InRam(memStart, memEnd, c.value) && c.value.kind == kind
  {
  }

  // ---------- the sorted list ----------

  predicate Sorted(s: seq<Range>) {
    forall i, j :: 0 <= i < j < |s| ==> s[i].start <= s[j].start
  }

  /** Insert after every range that starts at or before the item. */
  function Insert(s: seq<Range>, item: Range): (r: seq<Range>)
    ensures |r| == |s| + 1
    ensures multiset(r) == multiset(s) + multiset{item}
  {
    if s == [] || s[|s| - 1].start <= item.start then s + [item]
    else
      assert s == s[..|s| - 1] + [s[|s| - 1]];
      Insert(s[..|s| - 1], item) + [s[|s| - 1]]
  }

  /** Insertion keeps the list sorted. */
  lemma {:induction false} InsertSorted(s: seq<Range>, item: Range)
    requires Sorted(s)
    ensures Sorted(Insert(s, item))
    ensures forall x :: x in Insert(s, item) <==> x in s || x == item
  {
    if s != [] && s[|s| - 1].start > item.start {
      var init, last := s[..|s| - 1], s[|s| - 1];
      InsertSorted(init, item);
      var r := Insert(init, item);
      assert s == init + [last];
      assert forall x :: x in init ==> x.start <= last.start;
      SortedSnoc(r, last);
    }
  }

  lemma SortedSnoc(r: seq<Range>, last: Range)
    requires Sorted(r) && forall x :: x in r ==> x.start <= last.start
    ensures Sorted(r + [last])
  {
  }

  function Reserve(s: seq<Range>, c: Option<Range>): seq<Range> {
    if c.None? then s else Insert(s, c.value)
  }

  /** `xnu_reserved_insert`: clip, shift the later ranges up, store. */
  method ReservedInsert(ranges: array<Range>, count: nat, memStart: Word, memEnd: Word, base: Word, size: Word,
                        kind: nat)
    returns (n: nat)
    requires ranges.Length == MAP_MAX && count < MAP_MAX
    modifies ranges
    ensures n <= count + 1
    ensures ranges[..n] == Reserve(old(ranges[..count]), Clip(memStart, memEnd, base, size, kind))
  {
    if base == 0 || size == 0 {
      return count;
    }
    var end := Wrap(base + size);
    if end < base {
      return count;
    }
    var start := PageDown(base);
    end := PageUp(end);
    if end <= memStart || start >= memEnd {
      return count;
    }
    if start < memStart {
      start := memStart;
    }
    if end > memEnd {
      end := memEnd;
    }
    if end <= start {
      return count;
    }
    var item := Range(start, end, kind);
    n := InsertItem(ranges, count, item);
  }

  method InsertItem(ranges: array<Range>, count: nat, item: Range) returns (n: nat)
    requires count < ranges.Length
    modifies ranges
    ensures n == count + 1 && ranges[..n] == Insert(old(ranges[..count]), item)
  {
    hide Insert, Later;
    ghost var s := ranges[..count];
    var i := ShiftUp(ranges, count, item.start);
    ranges[i] := item;
    n := count + 1;
    LaterAll(s, i, item);
    InsertHere(s, i, item);
    Shifted(ranges[..n], s, i, item);
  }

  /** Move the ranges that start after `start` one slot up. */
  method ShiftUp(ranges: array<Range>, count: nat, start: Word) returns (i: nat)
    requires count < ranges.Length
    modifies ranges
    ensures i <= count
    ensures forall k :: 0 <= k < i ==> ranges[k] == old(ranges[k])
    ensures forall k :: i < k <= count ==> ranges[k] == old(ranges[k - 1])
    ensures i == 0 || old(ranges[i - 1]).start <= start
    ensures forall k :: i <= k < count ==> old(ranges[k]).start > start
  {
    i := count;
    while i > 0 && ranges[i - 1].start > start
      invariant 0 <= i <= count
      invariant forall k :: 0 <= k < i ==> ranges[k] == old(ranges[k])
      invariant forall k :: i < k <= count ==> ranges[k] == old(ranges[k - 1])
      invariant forall k :: i <= k < count ==> old(ranges[k]).start > start
    {
      ranges[i] := ranges[i - 1];
      i := i - 1;
    }
  }

  lemma {:induction false} LaterAll(s: seq<Range>, i: nat, item: Range)
    requires i <= |s| && forall k :: i <= k < |s| ==> s[k].start > item.start
    ensures Later(s, i, item)
    decreases |s| - i
  {
    if i == |s| {
      InsertAll(s, item);
    } else {
      LaterAll(s, i + 1, item);
      ShiftStep(s, i + 1, item);
    }
  }

  /** Everything from slot `i` on starts after the item. */
  ghost predicate Later(s: seq<Range>, i: nat, item: Range)
    requires i <= |s|
  {
    Insert(s, item) == Insert(s[..i], item) + s[i..]
  }

  lemma InsertAll(s: seq<Range>, item: Range)
    ensures Later(s, |s|, item)
  {
    assert s[..|s|] == s && s[|s|..] == [];
  }

  lemma InsertHere(s: seq<Range>, i: nat, item: Range)
    requires i <= |s| && (i == 0 || s[i - 1].start <= item.start) && Later(s, i, item)
    ensures Insert(s, item) == s[..i] + [item] + s[i..]
  {
  }

  lemma Shifted(r: seq<Range>, s: seq<Range>, i: nat, item: Range)
    requires i <= |s| && |r| == |s| + 1 && r[i] == item
    requires forall k :: 0 <= k < i ==> r[k] == s[k]
    requires forall k :: i < k <= |s| ==> r[k] == s[k - 1]
    ensures r == s[..i] + [item] + s[i..]
  {
  }

  lemma ShiftStep(s: seq<Range>, i: nat, item: Range)
    requires 0 < i <= |s| && s[i - 1].start > item.start
    requires Later(s, i, item)
    ensures Later(s, i - 1, item)
  {
    assert s[..i][..i - 1] == s[..i - 1];
    assert [s[i - 1]] + s[i..] == s[i - 1..];
  }

  // ---------- the sweep ----------

  function EntryOf(kind: nat, start: Word, end: Word): Entry {
    Entry(kind, start, if start <= end then (end - start) / PAGE else 0)
  }

  function EndOf(e: Entry): int {
    e.start + e.pages * PAGE
  }

  /** The entries the sweep still adds, from a cursor to the end of RAM. */
  function Sweep(ranges: seq<Range>, cursor: Word, memEnd: Word): seq<Entry>
  {
    if ranges == [] then if cursor < memEnd then [EntryOf(CONVENTIONAL, cursor, memEnd)] else []
    else SweepOne(ranges[0], cursor) + Sweep(ranges[1..], NextCursor(ranges[0], cursor), memEnd)
  }

  function SweepOne(r: Range, cursor: Word): seq<Entry> {
    if r.end <= cursor then []
    else if r.start > cursor then [EntryOf(CONVENTIONAL, cursor, r.start), EntryOf(r.kind, r.start, r.end)]
    else [EntryOf(r.kind, cursor, r.end)]
  }

  function NextCursor(r: Range, cursor: Word): Word {
    if r.end <= cursor then cursor else r.end
  }

  /** The type a page should have: that of the first range covering it, or Conventional. */
  function KindAt(ranges: seq<Range>, page: int): nat {
    if ranges == [] then CONVENTIONAL
    else if Covers(ranges[0], page) then ranges[0].kind
    else KindAt(ranges[1..], page)
  }

  /** Non-empty, page aligned, one after the other, from `from` to `to`. */
  ghost predicate Tiles(es: seq<Entry>, from: int, to: int) {
    if es == [] then from == to
    else es[0].start == from && from % PAGE == 0 && 0 < es[0].pages && Tiles(es[1..], EndOf(es[0]), to)
  }

  ghost predicate Typed(es: seq<Entry>, ranges: seq<Range>) {
    forall e, page :: e in es && page % PAGE == 0 && e.start <= page < EndOf(e) ==> e.kind == KindAt(ranges, page)
  }

  ghost predicate AllInRam(ranges: seq<Range>, memStart: Word, memEnd: Word) {
    forall r :: r in ranges ==> InRam(memStart, memEnd, r)
  }

  lemma InRamPages(a: Word, b: Word)
    requires a < b && a % PAGE == 0 && b % PAGE == 0
    ensures 0 < EntryOf(0, a, b).pages && a + (b - a) / PAGE * PAGE == b
  {
  }

  /** The sweep tiles what is left of RAM, in at most two entries a range and one more. */
  lemma {:induction false} SweepTiles(ranges: seq<Range>, cursor: Word, memStart: Word, memEnd: Word)
    requires AllInRam(ranges, memStart, memEnd) && memStart <= cursor <= memEnd && cursor % PAGE == 0
    requires memEnd % PAGE == 0
    ensures Tiles(Sweep(ranges, cursor, memEnd), cursor, memEnd)
    ensures |Sweep(ranges, cursor, memEnd)| <= 2 * |ranges| + 1
  {
    if ranges == [] {
      if cursor < memEnd {
        InRamPages(cursor, memEnd);
        assert [EntryOf(CONVENTIONAL, cursor, memEnd)][1..] == [];
      }
    } else {
      var r, next := ranges[0], NextCursor(ranges[0], cursor);
      assert r in ranges;
      SweepTiles(ranges[1..], next, memStart, memEnd);
      var rest := Sweep(ranges[1..], next, memEnd);
      TilesOne(r, cursor, rest, memEnd);
    }
  }

  lemma TilesOne(r: Range, cursor: Word, rest: seq<Entry>, memEnd: Word)
    requires r.start < r.end && r.start % PAGE == 0 && r.end % PAGE == 0 && cursor % PAGE == 0
    requires Tiles(rest, NextCursor(r, cursor), memEnd)
    ensures Tiles(SweepOne(r, cursor) + rest, cursor, memEnd)
  {
    var es := SweepOne(r, cursor);
    if r.end <= cursor {
      assert es + rest == rest;
    } else if r.start > cursor {
      InRamPages(cursor, r.start);
      InRamPages(r.start, r.end);
      assert (es + rest)[1..] == [es[1]] + rest && ([es[1]] + rest)[1..] == rest;
    } else {
      InRamPages(cursor, r.end);
      assert (es + rest)[1..] == rest;
    }
  }

  // ---------- types ----------

  lemma {:induction false} KindBelow(ranges: seq<Range>, page: int)
    requires forall r :: r in ranges ==> page < r.start
    ensures KindAt(ranges, page) == CONVENTIONAL
  {
    if ranges != [] {
      assert ranges[0] in ranges;
      KindBelow(ranges[1..], page);
    }
  }

  /** Every page swept has the type of the first remaining range that covers it. */
  lemma {:induction false} SweepTyped(ranges: seq<Range>, cursor: Word, memStart: Word, memEnd: Word, e: Entry,
                                      page: int)
    requires AllInRam(ranges, memStart, memEnd) && Sorted(ranges) && memStart <= cursor <= memEnd && cursor % PAGE == 0
    requires memEnd % PAGE == 0
    requires e in Sweep(ranges, cursor, memEnd) && e.start <= page < EndOf(e)
    ensures cursor <= page < memEnd && e.kind == KindAt(ranges, page)
  {
    if ranges == [] {
      InRamPages(cursor, memEnd);
    } else {
      var r, next := ranges[0], NextCursor(ranges[0], cursor);
      assert r in ranges;
      if e in SweepOne(r, cursor) {
        OneTyped(ranges, cursor, e, page);
      } else {
        assert Sorted(ranges[1..]);
        SweepTyped(ranges[1..], next, memStart, memEnd, e, page);
      }
    }
  }

  lemma OneTyped(ranges: seq<Range>, cursor: Word, e: Entry, page: int)
    requires ranges != [] && Sorted(ranges) && cursor % PAGE == 0
    requires var r := ranges[0]; r.start < r.end && r.start % PAGE == 0 && r.end % PAGE == 0
    requires e in SweepOne(ranges[0], cursor) && e.start <= page < EndOf(e)
    ensures cursor <= page < ranges[0].end && e.kind == KindAt(ranges, page)
  {
    var r := ranges[0];
    if r.start > cursor {
      InRamPages(cursor, r.start);
      InRamPages(r.start, r.end);
      if e == EntryOf(CONVENTIONAL, cursor, r.start) && page < r.start {
        KindBelow(ranges, page);
      }
    } else {
      InRamPages(cursor, r.end);
    }
  }

  // ---------- the whole map ----------

  datatype Request = Request(base: Word, size: Word, kind: nat)

  /** The requests in the order they are made, clipped, inserted. */
  function Reserved(reqs: seq<Request>, memStart: Word, memEnd: Word): seq<Range> {
    if reqs == [] then []
    else
      var q := reqs[|reqs| - 1];
      Reserve(Reserved(reqs[..|reqs| - 1], memStart, memEnd), Clip(memStart, memEnd, q.base, q.size, q.kind))
  }

  lemma {:induction false} ReservedRanges(reqs: seq<Request>, memStart: Word, memEnd: Word)
    requires memStart % PAGE == 0 && memEnd % PAGE == 0
    ensures var rs := Reserved(reqs, memStart, memEnd);
            && Sorted(rs) && AllInRam(rs, memStart, memEnd) && |rs| <= |reqs|
    ensures forall r :: r in Reserved(reqs, memStart, memEnd) <==>
              exists q :: q in reqs && Clip(memStart, memEnd, q.base, q.size, q.kind) == Some(r)
  {
    if reqs != [] {
      var init, q := reqs[..|reqs| - 1], reqs[|reqs| - 1];
      ReservedRanges(init, memStart, memEnd);
      ClipInRam(memStart, memEnd, q.base, q.size, q.kind);
      var c := Clip(memStart, memEnd, q.base, q.size, q.kind);
      if c.Some? {
        InsertSorted(Reserved(init, memStart, memEnd), c.value);
      }
      assert forall x :: x in reqs <==> x in init || x == q;
    }
  }

  /** The map for RAM `[memBase, memBase + memSize)`. */
  function MapOf(memBase: Word, memSize: Word, reqs: seq<Request>): seq<Entry> {
    var memStart, memEnd := PageUp(memBase), PageDown(Wrap(memBase + memSize));
    if memEnd <= memStart then [] else Sweep(Reserved(reqs, memStart, memEnd), memStart, memEnd)
  }

  /** A page is Conventional in the map exactly when no honoured request touches it. */
  lemma {:induction false} KindConventional(ranges: seq<Range>, page: int)
    requires forall r :: r in ranges ==> r.kind != CONVENTIONAL
    ensures KindAt(ranges, page) == CONVENTIONAL <==> forall r :: r in ranges ==> !Covers(r, page)
  {
    if ranges != [] {
      assert ranges[0] in ranges && forall r :: r in ranges <==> r == ranges[0] || r in ranges[1..];
      KindConventional(ranges[1..], page);
    }
  }

  ghost predicate SomeTouches(reqs: seq<Request>, page: int) {
    exists q :: q in reqs && q.size != 0 && Honoured(q.base, q.size) && Touched(q.base, q.size, page)
  }

  /** The partition: the entries tile RAM and every page has the type of the first range, in sorted order, that covers
      it. */
  lemma Partition(memBase: Word, memSize: Word, reqs: seq<Request>)
    ensures var memStart, memEnd := PageUp(memBase), PageDown(Wrap(memBase + memSize));
            memStart < memEnd ==>
              && Tiles(MapOf(memBase, memSize, reqs), memStart, memEnd)
              && |MapOf(memBase, memSize, reqs)| <= 2 * |reqs| + 1
              && Typed(MapOf(memBase, memSize, reqs), Reserved(reqs, memStart, memEnd))
  {
    var memStart, memEnd := PageUp(memBase), PageDown(Wrap(memBase + memSize));
    if memStart < memEnd {
      var rs, es := Reserved(reqs, memStart, memEnd), MapOf(memBase, memSize, reqs);
      ReservedRanges(reqs, memStart, memEnd);
      SweepTiles(rs, memStart, memStart, memEnd);
      forall e, page | e in es && page % PAGE == 0 && e.start <= page < EndOf(e) ensures e.kind == KindAt(rs, page) {
        SweepTyped(rs, memStart, memStart, memEnd, e, page);
      }
    }
  }

  /** The exact condition under which a page is offered to the kernel as free memory. */
  lemma ConventionalPage(memBase: Word, memSize: Word, reqs: seq<Request>, e: Entry, page: int)
    requires e in MapOf(memBase, memSize, reqs) && page % PAGE == 0 && e.start <= page < EndOf(e)
    requires forall q :: q in reqs ==> q.kind != CONVENTIONAL
    ensures e.kind == CONVENTIONAL <==> !SomeTouches(reqs, page)
  {
    var memStart, memEnd := PageUp(memBase), PageDown(Wrap(memBase + memSize));
    var rs := Reserved(reqs, memStart, memEnd);
    ReservedRanges(reqs, memStart, memEnd);
    SweepTyped(rs, memStart, memStart, memEnd, e, page);
    forall r | r in rs ensures r.kind != CONVENTIONAL {
      var q :| q in reqs && Clip(memStart, memEnd, q.base, q.size, q.kind) == Some(r);
    }
    KindConventional(rs, page);
    forall q | q in reqs && q.size != 0 ensures
        (exists r :: r in rs && Covers(r, page) && Clip(memStart, memEnd, q.base, q.size, q.kind) == Some(r))
        <==> Honoured(q.base, q.size) && Touched(q.base, q.size, page) {
      ClipExact(memStart, memEnd, q.base, q.size, q.kind, page);
    }
    CoveredTouched(reqs, rs, memStart, memEnd, page);
  }

  lemma CoveredTouched(reqs: seq<Request>, rs: seq<Range>, memStart: Word, memEnd: Word, page: int)
    requires forall r :: r in rs <==> exists q :: q in reqs && Clip(memStart, memEnd, q.base, q.size, q.kind) == Some(r)
    requires forall q :: q in reqs && q.size != 0 ==>
        ((exists r :: r in rs && Covers(r, page) && Clip(memStart, memEnd, q.base, q.size, q.kind) == Some(r))
        <==> Honoured(q.base, q.size) && Touched(q.base, q.size, page))
    ensures (exists r :: r in rs && Covers(r, page)) <==> SomeTouches(reqs, page)
  {
    if r :| r in rs && Covers(r, page) {
      var q :| q in reqs && Clip(memStart, memEnd, q.base, q.size, q.kind) == Some(r);
      assert q.size != 0;
    }
  }

  /** The five requests of the booter, in order. */
  function Requests(image: Request, kernel: Request, dtb: Request, initrd: Request): (r: seq<Request>)
    ensures |r| == 5
  {
    [Request(OPENSBI_BASE, OPENSBI_RESERVED, LOADER_CODE), image.(kind := LOADER_CODE), kernel.(kind := LOADER_CODE),
     dtb.(kind := LOADER_DATA), initrd.(kind := LOADER_DATA)]
  }

  ghost predicate TouchesAs(q: Request, page: int, kind: nat) {
    q.size != 0 && Honoured(q.base, q.size) && Touched(q.base, q.size, page) && q.kind == kind
  }

  lemma {:induction false} KindFrom(ranges: seq<Range>, page: int)
    requires KindAt(ranges, page) != CONVENTIONAL
    ensures exists r :: r in ranges && Covers(r, page) && r.kind == KindAt(ranges, page)
  {
    if !Covers(ranges[0], page) {
      KindFrom(ranges[1..], page);
      var r :| r in ranges[1..] && Covers(r, page) && r.kind == KindAt(ranges[1..], page);
      assert r in ranges;
    } else {
      assert ranges[0] in ranges;
    }
  }

  /** A page that is not free has the type of a request that touches it. */
  lemma TypeFrom(memBase: Word, memSize: Word, reqs: seq<Request>, e: Entry, page: int)
    requires e in MapOf(memBase, memSize, reqs) && page % PAGE == 0 && e.start <= page < EndOf(e)
    requires e.kind != CONVENTIONAL
    ensures exists q :: q in reqs && TouchesAs(q, page, e.kind)
  {
    var memStart, memEnd := PageUp(memBase), PageDown(Wrap(memBase + memSize));
    var rs := Reserved(reqs, memStart, memEnd);
    ReservedRanges(reqs, memStart, memEnd);
    SweepTyped(rs, memStart, memStart, memEnd, e, page);
    KindFrom(rs, page);
    var r :| r in rs && Covers(r, page) && r.kind == e.kind;
    var q :| q in reqs && Clip(memStart, memEnd, q.base, q.size, q.kind) == Some(r);
    ClipExact(memStart, memEnd, q.base, q.size, q.kind, page);
    assert TouchesAs(q, page, e.kind);
  }

  predicate HasPage(q: Request, page: int) {
    q.size != 0 && Honoured(q.base, q.size) && Touched(q.base, q.size, page)
  }

  /** The types the kernel sees, by number: 7 for a page none of the five areas touches, 1 (loader code) where only
      the firmware, the booter or the kernel lie, 2 (loader data) where only the device tree or the initrd lie. */
  lemma PageTypes(memBase: Word, memSize: Word, image: Request, kernel: Request, dtb: Request, initrd: Request,
                  e: Entry, page: int)
    requires e in MapOf(memBase, memSize, Requests(image, kernel, dtb, initrd))
    requires page % PAGE == 0 && e.start <= page < EndOf(e)
    ensures var firmware := Request(0x8000_0000, 0x20_0000, 1);
            var code := HasPage(firmware, page) || HasPage(image, page) || HasPage(kernel, page);
            var data := HasPage(dtb, page) || HasPage(initrd, page);
            && (e.kind == 7 <==> !code && !data)
            && (code && !data ==> e.kind == 1) && (data && !code ==> e.kind == 2)
  {
    var reqs := Requests(image, kernel, dtb, initrd);
    ConventionalPage(memBase, memSize, reqs, e, page);
    assert reqs[0] in reqs && reqs[1] in reqs && reqs[2] in reqs && reqs[3] in reqs && reqs[4] in reqs;
    if e.kind != CONVENTIONAL {
      TypeFrom(memBase, memSize, reqs, e, page);
      var q :| q in reqs && TouchesAs(q, page, e.kind);
    }
  }

  method MapAdd(map_: array<Entry>, count: nat, kind: nat, start: Word, end: Word) returns (n: nat)
    requires map_.Length == MAP_MAX && count <= MAP_MAX
    modifies map_
    ensures count <= n <= MAP_MAX
    ensures map_[..n] == old(map_[..count]) + if end <= start || count >= MAP_MAX then []
        else [EntryOf(kind, start, end)]
    ensures forall k :: n <= k < MAP_MAX ==> map_[k] == old(map_[k])
  {
    if end <= start || count >= MAP_MAX {
      return count;
    }
    map_[count] := Entry(kind, start, (end - start) / PAGE);
    n := count + 1;
  }

  method ReserveAll(ranges: array<Range>, memStart: Word, memEnd: Word, image: Request, kernel: Request, dtb: Request,
                    initrd: Request)
    returns (n: nat)
    requires ranges.Length == MAP_MAX
    modifies ranges
    ensures n <= 5 && ranges[..n] == Reserved(Requests(image, kernel, dtb, initrd), memStart, memEnd)
  {
    hide Clip, Reserve;
    ghost var all := Requests(image, kernel, dtb, initrd);
    n := ReservedInsert(ranges, 0, memStart, memEnd, OPENSBI_BASE, OPENSBI_RESERVED, LOADER_CODE);
    ReservedNext(all, 0, memStart, memEnd);
    n := ReservedInsert(ranges, n, memStart, memEnd, image.base, image.size, LOADER_CODE);
    ReservedNext(all, 1, memStart, memEnd);
    n := ReservedInsert(ranges, n, memStart, memEnd, kernel.base, kernel.size, LOADER_CODE);
    ReservedNext(all, 2, memStart, memEnd);
    n := ReservedInsert(ranges, n, memStart, memEnd, dtb.base, dtb.size, LOADER_DATA);
    ReservedNext(all, 3, memStart, memEnd);
    n := ReservedInsert(ranges, n, memStart, memEnd, initrd.base, initrd.size, LOADER_DATA);
    ReservedNext(all, 4, memStart, memEnd);
    assert all[..5] == all;
  }

  lemma ReservedNext(reqs: seq<Request>, i: nat, memStart: Word, memEnd: Word)
    requires i < |reqs|
    ensures Reserved(reqs[..0], memStart, memEnd) == []
    ensures Reserved(reqs[..i + 1], memStart, memEnd)
         == Reserve(Reserved(reqs[..i], memStart, memEnd),
                    Clip(memStart, memEnd, reqs[i].base, reqs[i].size, reqs[i].kind))
  {
    assert reqs[..i + 1][..i] == reqs[..i];
  }

  /** `xnu_build_memory_map`: the map of the five requests, never more than eleven entries. */
  method BuildMap(map_: array<Entry>, memBase: Word, memSize: Word, image: Request, kernel: Request, dtb: Request,
                  initrd: Request)
    returns (count: nat)
    requires map_.Length == 16
    modifies map_
    ensures count <= 11 && map_[..count] == MapOf(memBase, memSize, Requests(image, kernel, dtb, initrd))
    ensures forall k :: count <= k < MAP_MAX ==> map_[k] == Entry(0, 0, 0)
  {
    hide Clip, Reserve, Reserved;
    ghost var reqs := Requests(image, kernel, dtb, initrd);
    var memStart, memEnd := PageUp(memBase), PageDown(Wrap(memBase + memSize));
    for k := 0 to MAP_MAX
      invariant forall j :: 0 <= j < k ==> map_[j] == Entry(0, 0, 0)
    {
      map_[k] := Entry(0, 0, 0);
    }
    var ranges := new Range[MAP_MAX](_ => Range(0, 0, 0));
    if memEnd <= memStart {
      return 0;
    }
    var n := ReserveAll(ranges, memStart, memEnd, image, kernel, dtb, initrd);
    ReservedRanges(reqs, memStart, memEnd);
    count := RunSweep(map_, ranges[..n], memStart, memEnd);
  }

  /** One range of the cursor loop. */
  method SweepStep(map_: array<Entry>, count: nat, r: Range, cursor: Word) returns (n: nat, next: Word)
    requires map_.Length == MAP_MAX && count + 2 <= MAP_MAX && r.start < r.end
    modifies map_
    ensures n <= count + 2 && map_[..n] == old(map_[..count]) + SweepOne(r, cursor) && next == NextCursor(r, cursor)
    ensures forall k :: n <= k < MAP_MAX ==> map_[k] == old(map_[k])
  {
    n, next := count, cursor;
    var start := r.start;
    if r.end <= cursor {
      return;
    }
    if start > cursor {
      n := MapAdd(map_, n, CONVENTIONAL, cursor, start);
    }
    if start < cursor {
      start := cursor;
    }
    n := MapAdd(map_, n, r.kind, start, r.end);
    next := r.end;
  }

  /** The cursor loop. */
  method RunSweep(map_: array<Entry>, ranges: seq<Range>, memStart: Word, memEnd: Word) returns (count: nat)
    requires map_.Length == MAP_MAX && |ranges| <= 5 && AllInRam(ranges, memStart, memEnd)
    requires forall j :: 0 <= j < MAP_MAX ==> map_[j] == Entry(0, 0, 0)
    modifies map_
    ensures count <= 11 && map_[..count] == Sweep(ranges, memStart, memEnd)
    ensures forall k :: count <= k < MAP_MAX ==> map_[k] == Entry(0, 0, 0)
  {
    hide SweepOne, NextCursor, EntryOf, Sweep;
    count := 0;
    var cursor: Word := memStart;
    assert ranges[0..] == ranges;
    for i := 0 to |ranges|
      invariant count <= 2 * i
      invariant map_[..count] + Sweep(ranges[i..], cursor, memEnd) == Sweep(ranges, memStart, memEnd)
      invariant forall k :: count <= k < MAP_MAX ==> map_[k] == Entry(0, 0, 0)
    {
      assert ranges[i] in ranges;
      SweepFrom(ranges, i, cursor, memEnd);
      AppendOne(map_[..count], SweepOne(ranges[i], cursor),
                Sweep(ranges[i + 1..], NextCursor(ranges[i], cursor), memEnd));
      count, cursor := SweepStep(map_, count, ranges[i], cursor);
    }
    SweepEnd(cursor, memEnd);
    assert ranges[|ranges|..] == [];
    if cursor < memEnd {
      count := MapAdd(map_, count, CONVENTIONAL, cursor, memEnd);
    }
  }

  lemma SweepFrom(ranges: seq<Range>, i: nat, cursor: Word, memEnd: Word)
    requires i < |ranges|
    ensures Sweep(ranges[i..], cursor, memEnd)
        == SweepOne(ranges[i], cursor) + Sweep(ranges[i + 1..], NextCursor(ranges[i], cursor), memEnd)
  {
    assert ranges[i..][1..] == ranges[i + 1..];
  }

  lemma SweepEnd(cursor: Word, memEnd: Word)
    ensures Sweep([], cursor, memEnd) == if cursor < memEnd then [EntryOf(CONVENTIONAL, cursor, memEnd)] else []
  {
  }

  lemma AppendOne(a: seq<Entry>, b: seq<Entry>, c: seq<Entry>)
    ensures a + (b + c) == (a + b) + c
  {
  }

  // ---------- the kernel reads the map ----------

  datatype MemInfo = MemInfo(conventional: nat, reserved: nat, overlaps: nat, firstFree: Word, maxEnd: nat)

  function PagesIn(es: seq<Entry>, free: bool): nat {
    if es == [] then 0 else (if (es[0].kind == CONVENTIONAL) == free then es[0].pages else 0) + PagesIn(es[1..], free)
  }

  /** Entries that start before the previous one ends. */
  function OverlapsAfter(es: seq<Entry>, end: int): nat {
    if es == [] then 0 else (if es[0].start < end then 1 else 0) + OverlapsAfter(es[1..], EndOf(es[0]))
  }

  function FirstFree(es: seq<Entry>, found: Word): Word {
    if es == [] then found
    else FirstFree(es[1..], if es[0].kind == CONVENTIONAL && found == 0 then es[0].start else found)
  }

  function MaxEnd(es: seq<Entry>, top: int): int {
    if es == [] then top else MaxEnd(es[1..], if EndOf(es[0]) > top then EndOf(es[0]) else top)
  }

  /** The accounting loop of the kernel over the first sixteen entries at most. */
  method ScanMap(map_: seq<Entry>, total: nat) returns (info: MemInfo)
    requires total <= |map_|
    ensures var es := map_[..if total > MAP_MAX then MAP_MAX else total];
            && info.conventional == PagesIn(es, true) && info.reserved == PagesIn(es, false)
            && info.overlaps == (if es == [] then 0 else OverlapsAfter(es[1..], EndOf(es[0])))
            && info.firstFree == FirstFree(es, 0) && info.maxEnd == MaxEnd(es, 0)
  {
    var count := total;
    if count > MAP_MAX {
      count := MAP_MAX;
    }
    ghost var es := map_[..count];
    var conventional, reserved, overlaps, firstFree: Word, maxEnd: nat, previousEnd := 0, 0, 0, 0, 0, 0;
    assert es[0..] == es;
    for i := 0 to count
      invariant conventional + PagesIn(es[i..], true) == PagesIn(es, true)
      invariant reserved + PagesIn(es[i..], false) == PagesIn(es, false)
      invariant i > 0 ==> overlaps + OverlapsAfter(es[i..], previousEnd) == OverlapsAfter(es[1..], EndOf(es[0]))
      invariant i == 0 ==> overlaps == 0
      invariant FirstFree(es[i..], firstFree) == FirstFree(es, 0)
      invariant MaxEnd(es[i..], maxEnd) == MaxEnd(es, 0)
    {
      assert es[i..][1..] == es[i + 1..];
      var e := map_[i];
      var end := e.start + e.pages * PAGE;
      if i != 0 && e.start < previousEnd {
        overlaps := overlaps + 1;
      }
      previousEnd := end;
      if e.kind == CONVENTIONAL {
        conventional := conventional + e.pages;
        if firstFree == 0 {
          firstFree := e.start;
        }
      } else {
        reserved := reserved + e.pages;
      }
      if end > maxEnd {
        maxEnd := end;
      }
    }
    info := MemInfo(conventional, reserved, overlaps, firstFree, maxEnd);
  }

  /** Over a tiling the accounting is exact: no overlap, every page counted once, and the end is the end of RAM. */
  lemma {:induction false} TilesAccounted(es: seq<Entry>, from: int, to: int, top: int)
    requires Tiles(es, from, to) && top <= from
    ensures from <= to && (es != [] ==> from < to)
    ensures (PagesIn(es, true) + PagesIn(es, false)) * PAGE == to - from
    ensures OverlapsAfter(es, from) == 0
    ensures es != [] ==> MaxEnd(es, top) == to
  {
    if es != [] {
      TilesAccounted(es[1..], EndOf(es[0]), to, EndOf(es[0]));
    }
  }

  /** The seed for the kernel's allocator is the start of the lowest Conventional entry. */
  lemma {:induction false} FirstFreeLowest(es: seq<Entry>, from: int, to: int)
    requires Tiles(es, from, to) && 0 < from
    ensures var f := FirstFree(es, 0);
            if forall e :: e in es ==> e.kind != CONVENTIONAL then f == 0
            else f != 0 && (exists e :: e in es && e.kind == CONVENTIONAL && e.start == f)
                 && (forall e :: e in es && e.kind == CONVENTIONAL ==> f <= e.start)
  {
    if es != [] {
      var e := es[0];
      assert e in es && forall x :: x in es <==> x == e || x in es[1..];
      if e.kind == CONVENTIONAL {
        FirstFreeKept(es[1..], e.start);
        TilesAbove(es[1..], EndOf(e), to);
      } else {
        FirstFreeLowest(es[1..], EndOf(e), to);
      }
    }
  }

  lemma {:induction false} FirstFreeKept(es: seq<Entry>, found: Word)
    requires found != 0
    ensures FirstFree(es, found) == found
  {
    if es != [] {
      FirstFreeKept(es[1..], found);
    }
  }

  lemma {:induction false} TilesAbove(es: seq<Entry>, from: int, to: int)
    requires Tiles(es, from, to)
    ensures forall e :: e in es ==> from <= e.start
  {
    if es != [] {
      TilesAbove(es[1..], EndOf(es[0]), to);
    }
  }
}
