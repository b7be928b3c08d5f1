/**
  Sv32 identity maps built from 4 MiB superpages (section 4.3.2 of the RISC-V Privileged
  Architecture 1.12), by the booter and by the stage-0 kernel.
  */
module Sv32 {
  import opened Bytes
  import opened Machine

  const SUPER := 0x40_0000
  const ENTRIES := 1024
  const LAST_SUPER := 0xFFC0_0000

  /** Flag bits, V included: R W X A D G, the same with U, and R W A D G. */
  const RAM_FLAGS := 0xEF
  const USER_FLAGS := 0xFF
  const IO_FLAGS := 0xE7

  const UART_BASE := 0x1000_0000

  /** `((pa >> 12) << 10) | flags`. */
  function Pte(pa: Word, flags: nat): (r: nat)
    requires flags < 1024
    ensures r < TWO32
  {
    pa / 4096 * 1024 + flags
  }

  // ---------- the hardware's walk ----------

  datatype Translation = Fault | Pointer | Leaf(pa: int, r: bool, w: bool, x: bool, u: bool, g: bool)

  /** The walk of one address through a root table, as far as the root entry decides, on a machine that leaves the
      accessed and dirty bits to software: an entry not marked accessed faults, one not marked dirty cannot be
      written. */
  function Walk(l1: seq<nat>, va: Word): Translation
    requires |l1| == ENTRIES
  {
    var pte := l1[va / SUPER];
    var v, r, w, x, u := pte % 2 == 1, pte / 2 % 2 == 1, pte / 4 % 2 == 1, pte / 8 % 2 == 1, pte / 16 % 2 == 1;
    var g, a, d := pte / 32 % 2 == 1, pte / 64 % 2 == 1, pte / 128 % 2 == 1;
    var ppn1, ppn0 := pte / 0x10_0000, pte / 1024 % 1024;
    if !v || (!r && w) then Fault
    else if !r && !x then Pointer
    else if ppn0 != 0 || !a then Fault
    else Leaf(ppn1 * SUPER + va % SUPER, r, w && d, x, u, g)
  }

  predicate Flags(f: nat) {
    f == RAM_FLAGS || f == USER_FLAGS || f == IO_FLAGS
  }

  lemma LowBits(x: nat, flags: nat)
    requires Flags(flags)
    ensures var pte := x * 1024 + flags;
            && pte % 2 == 1 && pte / 2 % 2 == 1 && pte / 4 % 2 == 1
            && (pte / 8 % 2 == 1 <==> flags != IO_FLAGS) && (pte / 16 % 2 == 1 <==> flags == USER_FLAGS)
            && pte / 32 % 2 == 1 && pte / 64 % 2 == 1 && pte / 128 % 2 == 1 && pte / 1024 == x
  {
    hide Flags;
    FlagBits(flags);
    var f1, f2, f3, f4 := flags / 2, flags / 2 / 2, flags / 2 / 2 / 2, flags / 2 / 2 / 2 / 2;
    Nested(x * 1024 + flags);
    Half(x * 512, flags);
    Half(x * 256, f1);
    Half(x * 128, f2);
    Half(x * 64, f3);
    Half(x * 32, f4);
    UpperBits(x * 1024 + flags, x, f4);
  }

  lemma FlagBits(flags: nat)
    requires Flags(flags)
    ensures flags % 2 == 1 && flags / 2 % 2 == 1 && flags / 2 / 2 % 2 == 1 && flags < 1024
    ensures (flags / 2 / 2 / 2 % 2 == 1 <==> flags != IO_FLAGS)
    ensures (flags / 2 / 2 / 2 / 2 % 2 == 1 <==> flags == USER_FLAGS) && 14 <= flags / 2 / 2 / 2 / 2 <= 15
  {
  }

  /** The global, accessed and dirty bits. */
  lemma UpperBits(pte: nat, x: nat, f: nat)
    requires pte / 16 == x * 64 + f && 14 <= f <= 15
    ensures pte / 32 % 2 == 1 && pte / 64 % 2 == 1 && pte / 128 % 2 == 1
  {
    Halves(pte);
    Half(x * 32, f);
    Half(x * 16, 7);
    Half(x * 8, 3);
    Half(x * 4, 1);
  }

  lemma Halves(p: nat)
    ensures p / 32 == p / 16 / 2 && p / 64 == p / 16 / 2 / 2 && p / 128 == p / 16 / 2 / 2 / 2
  {
  }

  /** Halving a number whose upper part is even. */
  lemma Half(y: nat, f: nat)
    ensures (2 * y + f) / 2 == y + f / 2 && (2 * y + f) % 2 == f % 2
  {
  }

  lemma Nested(p: nat)
    ensures p / 4 == p / 2 / 2 && p / 8 == p / 2 / 2 / 2 && p / 16 == p / 2 / 2 / 2 / 2
  {
  }

  lemma HighBits(q: nat, m: nat, l: nat)
    requires m < 1024 && l < 4096
    ensures var base := q * SUPER + m * 4096 + l;
            base / 4096 == q * 1024 + m && base / SUPER == q && base % 4096 == l && (q * 1024 + m) / 1024 == q
                && (q * 1024 + m) % 1024 == m
  {
  }

  lemma PteFields(base: Word, flags: nat)
    requires Flags(flags)
    ensures var pte := Pte(base, flags);
            && pte % 2 == 1 && pte / 2 % 2 == 1 && pte / 4 % 2 == 1
            && (pte / 8 % 2 == 1 <==> flags != IO_FLAGS) && (pte / 16 % 2 == 1 <==> flags == USER_FLAGS)
            && pte / 32 % 2 == 1 && pte / 64 % 2 == 1 && pte / 128 % 2 == 1 && pte / 0x10_0000 == base / SUPER
                && (pte / 1024 % 1024 == 0 <==> base - base % 4096 == base / SUPER * SUPER)
  {
    var q, m, l := base / SUPER, base % SUPER / 4096, base % 4096;
    Split(base);
    HighBits(q, m, l);
    var x := q * 1024 + m;
    LowBits(x, flags);
    var pte := Pte(base, flags);
    assert pte == x * 1024 + flags;
    assert pte / 0x10_0000 == x / 1024 by {
      HighPart(x, flags);
    }
  }

  lemma HighPart(x: nat, flags: nat)
    requires flags < 1024
    ensures (x * 1024 + flags) / 0x10_0000 == x / 1024
  {
    var q, m := x / 1024, x % 1024;
    assert x * 1024 + flags == q * 0x10_0000 + (m * 1024 + flags);
    assert m * 1024 + flags < 0x10_0000;
  }

  lemma Split(base: Word)
    ensures base == base / SUPER * SUPER + base % SUPER / 4096 * 4096 + base % 4096
    ensures base % SUPER / 4096 < 1024
  {
    var r := base % SUPER;
    assert r == r / 4096 * 4096 + r % 4096;
    assert base % 4096 == (base / SUPER * 1024 * 4096 + r) % 4096;
  }

  /** A superpage entry translates to itself when its base lies in the first 4 KiB, and faults otherwise. */
  lemma SuperEntry(l1: seq<nat>, va: Word, base: Word, flags: nat)
    requires |l1| == ENTRIES && base / SUPER == va / SUPER && Flags(flags) && l1[va / SUPER] == Pte(base, flags)
    ensures Walk(l1, va) == if base - base % 4096 == base / SUPER * SUPER
                            then Leaf(va, true, true, flags != IO_FLAGS, flags == USER_FLAGS, true) else Fault
  {
    PteFields(base, flags);
    var pte := Pte(base, flags);
    assert va == va / SUPER * SUPER + va % SUPER;
    WalkFields(l1, va, pte);
  }

  lemma WalkFields(l1: seq<nat>, va: Word, pte: nat)
    requires |l1| == ENTRIES && l1[va / SUPER] == pte && pte % 2 == 1 && pte / 2 % 2 == 1
    requires pte / 32 % 2 == 1 && pte / 64 % 2 == 1 && pte / 128 % 2 == 1
    ensures Walk(l1, va) == if pte / 1024 % 1024 != 0 then Fault
              else Leaf(pte / 0x10_0000 * SUPER + va % SUPER, true, pte / 4 % 2 == 1, pte / 8 % 2 == 1,
                        pte / 16 % 2 == 1, true)
  {
  }

  // ---------- the tables ----------

  /** The loop's address in superpage `i`: they all lie as far into theirs as the first. */
  function RamAddr(i: nat, start: Word): (va: Word)
    requires i < ENTRIES
    ensures va / SUPER == i && va % SUPER == start % SUPER
  {
    i * SUPER + start % SUPER
  }

  function RamEntry(i: nat, start: Word, end: Word, user: bool): nat
    requires i < ENTRIES
  {
    var va := RamAddr(i, start);
    if start <= va < end then Pte(va, if user && va == USER_BASE then USER_FLAGS else RAM_FLAGS) else 0
  }

  function RamTable(start: Word, end: Word, user: bool): (t: seq<nat>)
    ensures |t| == ENTRIES
  {
    seq(ENTRIES, i requires 0 <= i < ENTRIES => RamEntry(i, start, end, user))
  }

  function PutIo(t: seq<nat>, base: Word): (r: seq<nat>)
    requires |t| == ENTRIES
    ensures |r| == ENTRIES
  {
    t[base / SUPER := Pte(base, IO_FLAGS)]
  }

  function PutIos(t: seq<nat>, bases: seq<Word>): (r: seq<nat>)
    requires |t| == ENTRIES
    ensures |r| == ENTRIES
  {
    if bases == [] then t else PutIo(PutIos(t, bases[..|bases| - 1]), bases[|bases| - 1])
  }

  function NonZero(bases: seq<Word>): seq<Word> {
    if bases == [] then []
    else NonZero(bases[..|bases| - 1]) + if bases[|bases| - 1] == 0 then [] else [bases[|bases| - 1]]
  }

  /** The loop ends exactly when its variable reaches the end before it wraps: see `NeverEnds`. */
  predicate Ends(start: Word, end: Word) {
    end <= LAST_SUPER + start % SUPER
  }

  /** The RAM loop. */
  method FillRam(l1: array<nat>, start: Word, end: Word, user: bool)
    requires l1.Length == ENTRIES && Ends(start, end)
    requires forall i :: 0 <= i < ENTRIES ==> l1[i] == 0
    modifies l1
    ensures l1[..] == RamTable(start, end, user)
  {
    hide Pte;
    var va: Word := start;
    while va < end
      invariant start <= va && va == RamAddr(va / SUPER, start)
      invariant forall i :: 0 <= i < ENTRIES ==> l1[i] == if i < va / SUPER then RamEntry(i, start, end, user) else 0
      decreases end - va
    {
      var flags := if user && va == USER_BASE then USER_FLAGS else RAM_FLAGS;
      l1[va / SUPER % ENTRIES] := Pte(va, flags);
      NextSuper(va, start);
      va := (va + SUPER) % TWO32;
    }
    forall i | 0 <= i < ENTRIES ensures l1[i] == RamEntry(i, start, end, user) {
      RamOrder(i, va, start);
    }
  }

  lemma NextSuper(va: Word, start: Word)
    requires va == RamAddr(va / SUPER, start) && va < LAST_SUPER + start % SUPER
    ensures va + SUPER < TWO32 && (va + SUPER) / SUPER == va / SUPER + 1 && va + SUPER == RamAddr(va / SUPER + 1, start)
  {
  }

  lemma RamOrder(i: nat, va: Word, start: Word)
    requires i < ENTRIES && va == RamAddr(va / SUPER, start)
    ensures i < va / SUPER <==> RamAddr(i, start) < va
  {
  }

  /** With an end above that, the loop variable stays below it for ever. */
  lemma NeverEnds(start: Word, end: Word, n: nat)
    requires !Ends(start, end)
    ensures (start + n * SUPER) % TWO32 < end
  {
    var q := start / SUPER + n;
    assert start + n * SUPER == q * SUPER + start % SUPER;
    assert q * SUPER + start % SUPER == q / 1024 * TWO32 + (q % 1024 * SUPER + start % SUPER);
    assert q % 1024 * SUPER + start % SUPER < TWO32;
    Modulo(q / 1024, q % 1024 * SUPER + start % SUPER);
  }

  lemma Modulo(k: nat, r: Word)
    ensures (k * TWO32 + r) % TWO32 == r
  {
  }

  /** `mmu_sv32_install_identity`. */
  method InstallIdentity(l1: array<nat>, start: Word, sizeMb: nat, mmios: seq<Word>)
    requires l1.Length == ENTRIES && |mmios| == 3 && Ends(start, (start + sizeMb * 0x10_0000) % TWO32)
    modifies l1
    ensures l1[..] == PutIos(RamTable(start, (start + sizeMb * 0x10_0000) % TWO32, false), NonZero(mmios))
  {
    hide RamTable, PutIos, NonZero, Pte;
    for i := 0 to ENTRIES
      invariant forall j :: 0 <= j < i ==> l1[j] == 0
    {
      l1[i] := 0;
    }
    var end := (start + sizeMb * 0x10_0000) % TWO32;
    FillRam(l1, start, end, false);
    ghost var t := l1[..];
    NoIos(t, mmios);
    for k := 0 to 3
      invariant l1[..] == PutIos(t, NonZero(mmios[..k]))
    {
      IoNext(t, mmios, k);
      if mmios[k] != 0 {
        l1[mmios[k] / SUPER % ENTRIES] := Pte(mmios[k], IO_FLAGS);
      }
    }
    assert mmios[..3] == mmios;
  }

  lemma NoIos(t: seq<nat>, mmios: seq<Word>)
    requires |t| == ENTRIES
    ensures PutIos(t, NonZero(mmios[..0])) == t
  {
  }

  lemma IoNext(t: seq<nat>, mmios: seq<Word>, k: nat)
    requires |t| == ENTRIES && k < |mmios|
    ensures PutIos(t, NonZero(mmios[..k + 1])) == if mmios[k] == 0 then PutIos(t, NonZero(mmios[..k]))
        else PutIo(PutIos(t, NonZero(mmios[..k])), mmios[k])
  {
    assert mmios[..k + 1][..k] == mmios[..k];
    var z := NonZero(mmios[..k]);
    if mmios[k] != 0 {
      assert (z + [mmios[k]])[..|z|] == z;
    } else {
      assert z + [] == z;
    }
  }

  /** `stage0_install_umode_mmu`, up to the register write: the UART, PLIC and ACLINT superpages go over the RAM ones.
      */
  method InstallUserMmu(l1: array<nat>, start: Word, size: Word, plic: Word, aclint: Word)
    requires l1.Length == ENTRIES && Ends(start, (start + size) % TWO32)
    modifies l1
    ensures l1[..] == PutIos(RamTable(start, (start + size) % TWO32, true), [0x1000_0000, plic, aclint])
  {
    hide RamTable, PutIos, Pte;
    for i := 0 to ENTRIES
      invariant forall j :: 0 <= j < i ==> l1[j] == 0
    {
      l1[i] := 0;
    }
    FillRam(l1, start, (start + size) % TWO32, true);
    ghost var t, bases := l1[..], [UART_BASE, plic, aclint];
    l1[UART_BASE / SUPER % ENTRIES] := Pte(UART_BASE, IO_FLAGS);
    l1[plic / SUPER % ENTRIES] := Pte(plic, IO_FLAGS);
    l1[aclint / SUPER % ENTRIES] := Pte(aclint, IO_FLAGS);
    ThreeIos(t, UART_BASE, plic, aclint);
  }

  lemma ThreeIos(t: seq<nat>, a: Word, b: Word, c: Word)
    requires |t| == ENTRIES
    ensures PutIos(t, [a, b, c]) == PutIo(PutIo(PutIo(t, a), b), c)
  {
    assert [a, b, c][..2] == [a, b] && [a, b][..1] == [a] && [a][..0] == [];
    assert PutIos(t, [a]) == PutIo(t, a);
    assert PutIos(t, [a, b]) == PutIo(PutIo(t, a), b);
  }

  // ---------- what the tables translate ----------

  predicate InSuper(base: Word, va: Word) {
    base / SUPER == va / SUPER
  }

  /** A superpage entry made from this address works: it lies in the superpage's first 4 KiB. */
  predicate Placed(base: Word) {
    base % SUPER < PAGE
  }

  /** The device that owns the superpage of `va`: the last one put there. */
  function Device(bases: seq<Word>, va: Word): Option<Word> {
    if bases == [] then None
    else if InSuper(bases[|bases| - 1], va) then Some(bases[|bases| - 1])
    else Device(bases[..|bases| - 1], va)
  }

  /** The translation of one address: identity without execute for a device, identity for RAM, the user window alone
      for U-mode; a fault elsewhere, and wherever the entry was made from an address beyond the first 4 KiB. */
  function Ideal(start: Word, end: Word, user: bool, bases: seq<Word>, va: Word): Translation {
    var ram := RamAddr(va / SUPER, start);
    match Device(bases, va)
    case Some(b) => if Placed(b) then Leaf(va, true, true, false, false, true) else Fault
    case None => if start <= ram < end && Placed(start) then Leaf(va, true, true, true, user && ram == USER_BASE, true)
        else Fault
  }

  lemma {:induction false} IoEntry(t: seq<nat>, bases: seq<Word>, va: Word)
    requires |t| == ENTRIES
    ensures Device(bases, va).Some? ==> InSuper(Device(bases, va).value, va)
    ensures PutIos(t, bases)[va / SUPER]
         == if Device(bases, va).Some? then Pte(Device(bases, va).value, IO_FLAGS) else t[va / SUPER]
  {
    hide Pte;
    if bases != [] {
      IoEntry(t, bases[..|bases| - 1], va);
    }
  }

  lemma NoEntry(l1: seq<nat>, va: Word)
    requires |l1| == ENTRIES
    ensures l1[va / SUPER] == 0 ==> Walk(l1, va) == Fault
  {
  }

  lemma PlacedExact(base: Word)
    ensures Placed(base) <==> base - base % 4096 == base / SUPER * SUPER
  {
    Split(base);
  }

  /** The walk of the built table, for every table and every address. */
  lemma TableRight(start: Word, end: Word, user: bool, bases: seq<Word>, va: Word)
    ensures Walk(PutIos(RamTable(start, end, user), bases), va) == Ideal(start, end, user, bases, va)
  {
    hide Walk, PutIos, Pte, Device, RamAddr, Placed;
    var t := RamTable(start, end, user);
    var l1 := PutIos(t, bases);
    NoEntry(l1, va);
    IoEntry(t, bases, va);
    var ram := RamAddr(va / SUPER, start);
    match Device(bases, va) {
      case Some(b) =>
        PlacedExact(b);
        SuperEntry(l1, va, b, IO_FLAGS);
      case None =>
        if start <= ram < end {
          PlacedExact(ram);
          SamePlace(ram, start);
          SuperEntry(l1, va, ram, if user && ram == USER_BASE then USER_FLAGS else RAM_FLAGS);
        }
    }
  }

  lemma SamePlace(a: Word, b: Word)
    requires a % SUPER == b % SUPER
    ensures Placed(a) == Placed(b)
  {
  }

  /** Every address of RAM that starts on a superpage translates to itself, unless a device took its superpage. */
  lemma RamMapped(start: Word, end: Word, user: bool, bases: seq<Word>, va: Word)
    requires start % SUPER == 0 && Device(bases, va).None? && start <= va < end
    ensures Walk(PutIos(RamTable(start, end, user), bases), va)
        == Leaf(va, true, true, true, user && InSuper(USER_BASE, va), true)
  {
    TableRight(start, end, user, bases, va);
  }

  /** In the stage-0 table U-mode reaches exactly the user window, and that only when RAM starts on a superpage,
      reaches into the window, and no device lies there. */
  lemma UserWindow(start: Word, end: Word, bases: seq<Word>, va: Word)
    ensures var t := Walk(PutIos(RamTable(start, end, true), bases), va);
            (t.Leaf? && t.u) <==> && 0x8100_0000 <= va < 0x8140_0000 && start % SUPER == 0
                                  && start <= USER_BASE < end && Device(bases, va).None?
  {
    hide Walk, PutIos, Pte, Device, RamTable;
    TableRight(start, end, true, bases, va);
  }
}
