/**
  One virtio-blk queue, driver and device, as a state machine over single memory accesses.
  Every nondeterministic choice (which side moves, which request is made, in which order the
  device writes, whether and how it fails) is an action, so a list of actions is a run.
  */
module VirtioBlk {
  import opened Bytes
  import opened Machine

  const QNUM := 8
  const HDR_SIZE := 16
  const RING_SIZE := 8192
  const T_IN := 0
  const MAX_SPINS := 100_000_000

  type Idx = x: int | 0 <= x < 0x1_0000

  function Next(i: Idx): Idx {
    (i + 1) % TWO16
  }

  datatype Desc = Desc(addr: nat, len: nat, more: bool, write: bool, link: nat)

  datatype Used = Used(id: nat, len: nat)

  /** The three shared areas. */
  datatype Rings = Rings(desc: seq<Desc>, availIdx: Idx, avail: seq<nat>, usedIdx: Idx, used: seq<Used>)

  /** The driver's statically allocated header, status byte and ring area, and the disk. */
  datatype Config = Config(hdr: nat, status: nat, ring: nat, disk: seq<byte>)

  datatype Req = Req(lba: nat, count: nat, buf: nat)

  /** Where the driver is in `virtio_blk_read_blocks`; `Done(ok)` is a return of 0 or -1. */
  datatype Driver =
    | Idle
    | SetType(r: Req) | SetSector(r: Req) | SetStatus(r: Req)
    | ReadUsed(r: Req) | SetDesc(r: Req, want: Idx, i: nat)
    | StoreRing(r: Req, want: Idx) | BumpAvail(r: Req, want: Idx, aidx: Idx)
    | Poll(r: Req, want: Idx, spins: nat) | Recheck(r: Req, want: Idx)
    | CheckStatus(r: Req)
    | Done(r: Req, ok: bool)
    | TimedOut(r: Req, want: Idx)

  /** Where a device that follows the specification is with one chain. */
  datatype Device =
    | Waiting
    | Walking(head: nat, at: nat, got: seq<Desc>)
    | Reading(head: nat, got: seq<Desc>)
    | Transfer(head: nat, got: seq<Desc>, sector: nat, written: set<nat>)
    | Failing(head: nat, got: seq<Desc>)
    | StoreStatus(head: nat, got: seq<Desc>, code: byte)
    | StoreUsed(head: nat, got: seq<Desc>)
    | BumpUsed

  /** `base` is the memory when the current call started: a history variable, no step depends on it. */
  datatype State = State(mem: seq<byte>, base: seq<byte>, rings: Rings, driver: Driver, device: Device, lastAvail: Idx)

  datatype Action =
    | Call(r: Req)
    | Drive
    | Fetch | Walk | Accept | Reject
    | Write(k: nat) | Finish | Abort
    | Garbage(k: nat, b: byte) | Fail(code: byte)
    | PutStatus | PutUsed | PutIdx

  // ---------- requests ----------

  function Bytes512(r: Req): nat {
    SECTOR * r.count
  }

  predicate ValidConfig(c: Config) {
    && c.hdr + HDR_SIZE <= TWO32 && c.status < TWO32 && c.ring + RING_SIZE <= TWO32
    && !InHdr(c, c.status) && !InRing(c, c.status) && (c.hdr + HDR_SIZE <= c.ring || c.ring + RING_SIZE <= c.hdr)
  }

  /** What a caller must provide: a buffer in memory, apart from the driver's own header, status and rings. */
  predicate ValidReq(c: Config, r: Req) {
    && r.lba < TWO64 && r.count < TWO32 && r.buf + Bytes512(r) <= TWO32
    && !InBuf(r, c.status) && (r.buf + Bytes512(r) <= c.hdr || c.hdr + HDR_SIZE <= r.buf)
    && (r.buf + Bytes512(r) <= c.ring || c.ring + RING_SIZE <= r.buf)
  }

  predicate InBuf(r: Req, p: nat) {
    r.buf <= p < r.buf + Bytes512(r)
  }

  predicate InHdr(c: Config, p: nat) {
    c.hdr <= p < c.hdr + HDR_SIZE
  }

  /** The bytes that hold `Rings`; `mem` has no say over them. */
  predicate InRing(c: Config, p: nat) {
    c.ring <= p < c.ring + RING_SIZE
  }

  /** The descriptors the driver writes; the data length is a 32-bit product. */
  function Chain(c: Config, r: Req): (d: seq<Desc>)
    ensures |d| == 3
  {
    [Desc(c.hdr, HDR_SIZE, true, false, 1),
     Desc(r.buf, Bytes512(r) % TWO32, true, true, 2),
     Desc(c.status, 1, false, true, 0)]
  }

  /** The buffer holds the requested sectors. */
  ghost predicate DataRight(c: Config, mem: seq<byte>, r: Req)
    requires |mem| == TWO32 && r.buf + Bytes512(r) <= TWO32
  {
    forall k :: 0 <= k < Bytes512(r) ==> ByteRight(c, mem, r, k)
  }

  predicate ByteRight(c: Config, mem: seq<byte>, r: Req, k: nat)
    requires |mem| == TWO32 && r.buf + Bytes512(r) <= TWO32 && k < Bytes512(r)
  {
    SECTOR * r.lba + k < |c.disk| && mem[r.buf + k] == c.disk[SECTOR * r.lba + k]
  }

  // ---------- shapes ----------

  predicate Shapes(s: State) {
    && |s.mem| == |s.base| == TWO32
    && |s.rings.desc| == QNUM && |s.rings.avail| == QNUM && |s.rings.used| == QNUM
  }

  function LbaBytes(lba: nat): (b: seq<byte>)
    requires lba < TWO64
    ensures |b| == 8
  {
    EncLe32(lba % TWO32) + EncLe32(lba / TWO32)
  }

  function Lba(b: seq<byte>, o: nat): nat
    requires o + 8 <= |b|
  {
    Le32(b, o) + Le32(b, o + 4) * TWO32
  }

  /** A little-endian number, byte by byte. */
  function LeNumber(b: seq<byte>): nat {
    if b == [] then 0 else b[0] + 256 * LeNumber(b[1..])
  }

  lemma LbaNumber(b: seq<byte>, o: nat)
    requires o + 8 <= |b|
    ensures LeNumber(b[o..o + 8]) == Lba(b, o)
  {
    hide LeNumber;
    NumberStep(b, o, 8);
    NumberStep(b, o + 1, 7);
    NumberStep(b, o + 2, 6);
    NumberStep(b, o + 3, 5);
    NumberStep(b, o + 4, 4);
    NumberStep(b, o + 5, 3);
    NumberStep(b, o + 6, 2);
    NumberStep(b, o + 7, 1);
    NumberStep(b, o + 8, 0);
  }

  lemma NumberStep(b: seq<byte>, o: nat, n: nat)
    requires o + n <= |b|
    ensures LeNumber(b[o..o + n]) == if n == 0 then 0 else b[o] + 256 * LeNumber(b[o + 1..o + n])
  {
    if n != 0 {
      assert b[o..o + n][1..] == b[o + 1..o + n];
    }
  }

  // ---------- the driver ----------

  predicate DriverReady(c: Config, s: State)
    requires Shapes(s) && ValidConfig(c)
  {
    match s.driver
    case Idle => false
    case Done(_, _) => false
    case TimedOut(_, _) => false
    case SetSector(r) => ValidReq(c, r)
    case SetDesc(r, _, i) => ValidReq(c, r) && i < 3
    case _ => true
  }

  function DriverStep(c: Config, s: State): (n: State)
    requires Shapes(s) && ValidConfig(c) && DriverReady(c, s)
    ensures Shapes(n) && n.device == s.device && n.lastAvail == s.lastAvail && n.base == s.base
    ensures n.rings.usedIdx == s.rings.usedIdx
  {
    match s.driver
    case SetType(r) => s.(mem := Patch(s.mem, c.hdr, EncLe32(T_IN) + EncLe32(0)), driver := SetSector(r))
    case SetSector(r) => s.(mem := Patch(s.mem, c.hdr + 8, LbaBytes(r.lba)), driver := SetStatus(r))
    case SetStatus(r) => s.(mem := s.mem[c.status := 0xFF], driver := ReadUsed(r))
    case ReadUsed(r) => s.(driver := SetDesc(r, Next(s.rings.usedIdx), 0))
    case SetDesc(r, want, i) =>
      s.(rings := s.rings.(desc := s.rings.desc[i := Chain(c, r)[i]]),
         driver := if i == 2 then StoreRing(r, want) else SetDesc(r, want, i + 1))
    case StoreRing(r, want) =>
      s.(rings := s.rings.(avail := s.rings.avail[s.rings.availIdx % QNUM := 0]),
         driver := BumpAvail(r, want, s.rings.availIdx))
    case BumpAvail(r, want, aidx) => s.(rings := s.rings.(availIdx := Next(aidx)), driver := Poll(r, want, 0))
    case Poll(r, want, spins) =>
      s.(driver := if s.rings.usedIdx == want || spins >= MAX_SPINS then Recheck(r, want) else Poll(r, want, spins + 1))
    case Recheck(r, want) => s.(driver := if s.rings.usedIdx != want then TimedOut(r, want) else CheckStatus(r))
    case CheckStatus(r) => s.(driver := Done(r, s.mem[c.status] == 0))
  }

  // ---------- the device ----------

  predicate DataChain(got: seq<Desc>) {
    && |got| == 3 && got[0].addr + HDR_SIZE <= TWO32
    && got[1].addr + got[1].len <= TWO32 && got[2].addr < TWO32
  }

  /** Sections 2.6.5 and 5.2.6 of VIRTIO 1.1: a sixteen-byte header the device may only read, of request type 0 (a
      read), and a buffer within the disk. */
  predicate Servable(c: Config, s: State, got: seq<Desc>)
    requires Shapes(s) && DataChain(got)
  {
    && !got[0].write && got[0].len == 16
    && Le32(s.mem, got[0].addr) == 0 && SECTOR * Lba(s.mem, got[0].addr + 8) + got[1].len <= |c.disk|
  }

  /** The device writes a buffer only where the driver says it may. */
  predicate MayWrite(d: Desc, k: nat) {
    d.write && k < d.len && d.addr + k < TWO32
  }

  predicate Enabled(c: Config, s: State, a: Action)
    requires Shapes(s) && ValidConfig(c)
  {
    match a
    case Call(r) => (s.driver.Idle? || s.driver.Done?) && ValidReq(c, r)
    case Drive => DriverReady(c, s)
    case Fetch => s.device.Waiting? && s.lastAvail != s.rings.availIdx
    case Walk => s.device.Walking? && s.device.at < QNUM && |s.device.got| < QNUM
    case Accept => s.device.Reading? && DataChain(s.device.got) && Servable(c, s, s.device.got)
    case Reject => s.device.Reading?
    case Write(k) => && s.device.Transfer? && DataChain(s.device.got) && MayWrite(s.device.got[1], k)
                     && k !in s.device.written
                     && SECTOR * s.device.sector + k < |c.disk|
    case Finish => && s.device.Transfer? && DataChain(s.device.got)
                   && forall k :: 0 <= k < s.device.got[1].len ==> k in s.device.written
    case Abort => s.device.Transfer?
    case Garbage(k, b) => s.device.Failing? && DataChain(s.device.got) && MayWrite(s.device.got[1], k)
    case Fail(code) => s.device.Failing? && code != 0
    case PutStatus => s.device.StoreStatus? && s.device.got != [] && MayWrite(s.device.got[|s.device.got| - 1], 0)
    case PutUsed => s.device.StoreUsed?
    case PutIdx => s.device.BumpUsed?
  }

  function DeviceStep(c: Config, s: State, a: Action): (n: State)
    requires Shapes(s) && ValidConfig(c) && Enabled(c, s, a) && !a.Call? && !a.Drive?
    ensures Shapes(n) && n.driver == s.driver && n.base == s.base
  {
    match a
    case Fetch =>
      var head := s.rings.avail[s.lastAvail % QNUM];
      s.(lastAvail := Next(s.lastAvail), device := Walking(head, head, []))
    case Walk =>
      var d := s.rings.desc[s.device.at];
      var got := s.device.got + [d];
      s.(device := if d.more then Walking(s.device.head, d.link, got) else Reading(s.device.head, got))
    case Accept => s.(device := Transfer(s.device.head, s.device.got, Lba(s.mem, s.device.got[0].addr + 8), {}))
    case Reject => s.(device := Failing(s.device.head, s.device.got))
    case Write(k) =>
      s.(mem := s.mem[s.device.got[1].addr + k := c.disk[SECTOR * s.device.sector + k]],
         device := s.device.(written := s.device.written + {k}))
    case Finish => s.(device := StoreStatus(s.device.head, s.device.got, 0))
    case Abort => s.(device := Failing(s.device.head, s.device.got))
    case Garbage(k, b) => s.(mem := s.mem[s.device.got[1].addr + k := b])
    case Fail(code) => s.(device := StoreStatus(s.device.head, s.device.got, code))
    case PutStatus =>
      s.(mem := s.mem[s.device.got[|s.device.got| - 1].addr := s.device.code],
         device := StoreUsed(s.device.head, s.device.got))
    case PutUsed =>
      var len := if |s.device.got| > 1 then s.device.got[1].len + 1 else 0;
      s.(rings := s.rings.(used := s.rings.used[s.rings.usedIdx % QNUM := Used(s.device.head, len)]),
         device := BumpUsed)
    case PutIdx => s.(rings := s.rings.(usedIdx := Next(s.rings.usedIdx)), device := Waiting)
  }

  function Step(c: Config, s: State, a: Action): (n: State)
    requires Shapes(s) && ValidConfig(c) && Enabled(c, s, a)
    ensures Shapes(n)
  {
    match a
    case Call(r) => s.(base := s.mem, driver := if r.count == 0 then Done(r, true) else SetType(r))
    case Drive => DriverStep(c, s)
    case _ => DeviceStep(c, s, a)
  }

  // ---------- the invariant ----------

  /** Nothing published is unfinished and the device rests. */
  predicate Quiet(s: State) {
    s.device == Waiting && s.lastAvail == s.rings.availIdx == s.rings.usedIdx
  }

  predicate TypeSet(c: Config, mem: seq<byte>)
    requires |mem| == TWO32 && ValidConfig(c)
  {
    Le32(mem, c.hdr) == T_IN && Le32(mem, c.hdr + 4) == 0
  }

  predicate HeaderSet(c: Config, mem: seq<byte>, r: Req)
    requires |mem| == TWO32 && ValidConfig(c)
  {
    TypeSet(c, mem) && Lba(mem, c.hdr + 8) == r.lba
  }

  predicate DescsSet(c: Config, desc: seq<Desc>, r: Req, n: nat)
    requires |desc| == QNUM && n <= 3
  {
    forall j :: 0 <= j < n ==> desc[j] == Chain(c, r)[j]
  }

  /** Memory outside the buffer, the header, the status byte and the rings is as it was when the call started. */
  ghost predicate Framed(c: Config, mem: seq<byte>, base: seq<byte>, r: Req)
    requires |mem| == |base| == TWO32
  {
    forall p :: 0 <= p < TWO32 && !InBuf(r, p) && !InHdr(c, p) && !InRing(c, p) && p != c.status ==> mem[p] == base[p]
  }

  ghost predicate Completed(c: Config, mem: seq<byte>, r: Req)
    requires |mem| == TWO32 && ValidConfig(c) && ValidReq(c, r)
  {
    mem[c.status] == 0 ==> DataRight(c, mem, r)
  }

  /** The status byte holds what no device answers with. */
  predicate Unanswered(c: Config, mem: seq<byte>)
    requires |mem| == TWO32 && ValidConfig(c)
  {
    mem[c.status] == 0xFF
  }

  /** The device's view of the one request in flight. */
  ghost predicate Serving(c: Config, mem: seq<byte>, device: Device, r: Req)
    requires |mem| == TWO32 && ValidConfig(c) && ValidReq(c, r)
  {
    match device
    case Waiting => false
    case Walking(head, at, got) => head == 0 && at == |got| < 3 && got == Chain(c, r)[..at] && Unanswered(c, mem)
    case Reading(head, got) => got == Chain(c, r) && Unanswered(c, mem)
    case Transfer(head, got, sector, written) =>
      got == Chain(c, r) && sector == r.lba && TransferOk(c, mem, r, written) && Unanswered(c, mem)
    case Failing(head, got) => got == Chain(c, r) && Unanswered(c, mem)
    case StoreStatus(head, got, code) => got == Chain(c, r) && (code == 0 ==> DataRight(c, mem, r))
        && Unanswered(c, mem)
    case StoreUsed(_, _) => Completed(c, mem, r)
    case BumpUsed => Completed(c, mem, r)
  }

  ghost predicate TransferOk(c: Config, mem: seq<byte>, r: Req, written: set<nat>)
    requires |mem| == TWO32 && ValidConfig(c) && ValidReq(c, r)
  {
    forall k :: k in written ==> k < Bytes512(r) && ByteRight(c, mem, r, k)
  }

  /** The request is published and unfinished, or finished and not yet noticed. */
  ghost predicate InFlight(c: Config, s: State, r: Req, want: Idx)
    requires Shapes(s) && ValidConfig(c) && ValidReq(c, r)
  {
    && s.rings.availIdx == want && HeaderSet(c, s.mem, r) && DescsSet(c, s.rings.desc, r, 3)
    && if s.device.Waiting? then
         || (Next(s.lastAvail) == want && s.rings.usedIdx == s.lastAvail && s.rings.avail[s.lastAvail % QNUM] == 0
             && Unanswered(c, s.mem))
         || (s.lastAvail == want && s.rings.usedIdx == want && Completed(c, s.mem, r))
       else s.lastAvail == want && Next(s.rings.usedIdx) == want && Serving(c, s.mem, s.device, r)
  }

  ghost predicate DriverOk(c: Config, s: State)
    requires Shapes(s) && ValidConfig(c)
  {
    match s.driver
    case Idle => Quiet(s)
    case SetType(r) => Quiet(s)
    case SetSector(r) => Quiet(s) && TypeSet(c, s.mem)
    case SetStatus(r) => Quiet(s) && HeaderSet(c, s.mem, r)
    case ReadUsed(r) => Quiet(s) && HeaderSet(c, s.mem, r) && Unanswered(c, s.mem)
    case SetDesc(r, want, i) =>
      && Quiet(s) && HeaderSet(c, s.mem, r) && want == Next(s.rings.usedIdx) && i < 3 && DescsSet(c, s.rings.desc, r, i)
      && Unanswered(c, s.mem)
    case StoreRing(r, want) =>
      && Quiet(s) && HeaderSet(c, s.mem, r) && want == Next(s.rings.usedIdx) && DescsSet(c, s.rings.desc, r, 3)
      && Unanswered(c, s.mem)
    case BumpAvail(r, want, aidx) =>
      && Quiet(s) && HeaderSet(c, s.mem, r) && want == Next(s.rings.usedIdx) && DescsSet(c, s.rings.desc, r, 3)
      && Unanswered(c, s.mem) && aidx == s.rings.availIdx && s.rings.avail[aidx % QNUM] == 0
    case Poll(r, want, spins) => ValidReq(c, r) && InFlight(c, s, r, want)
    case Recheck(r, want) => ValidReq(c, r) && InFlight(c, s, r, want)
    case TimedOut(r, want) => ValidReq(c, r) && InFlight(c, s, r, want)
    case CheckStatus(r) => ValidReq(c, r) && Quiet(s) && Completed(c, s.mem, r)
    case Done(r, ok) => ValidReq(c, r) && Quiet(s) && (ok ==> DataRight(c, s.mem, r))
  }

  ghost predicate Inv(c: Config, s: State) {
    && Shapes(s) && ValidConfig(c) && DriverOk(c, s)
    && (!s.driver.Idle? ==> ValidReq(c, s.driver.r) && Framed(c, s.mem, s.base, s.driver.r))
  }

  ghost predicate Init(c: Config, s: State) {
    && Shapes(s) && ValidConfig(c) && s.driver == Idle && s.device == Waiting
    && s.rings.availIdx == 0 && s.rings.usedIdx == 0 && s.lastAvail == 0
  }

  lemma InitInv(c: Config, s: State)
    requires Init(c, s)
    ensures Inv(c, s)
  {
  }

  // ---------- what each step keeps ----------

  lemma CallInv(c: Config, s: State, r: Req)
    requires Inv(c, s) && Enabled(c, s, Call(r))
    ensures Inv(c, Step(c, s, Call(r)))
  {
    hide Le32, Lba, Chain;
  }

  lemma HeaderKept(c: Config, s: State, p: nat, b: byte)
    requires Shapes(s) && ValidConfig(c) && p < TWO32 && !InHdr(c, p)
    ensures TypeSet(c, s.mem[p := b]) <==> TypeSet(c, s.mem)
    ensures Lba(s.mem[p := b], c.hdr + 8) == Lba(s.mem, c.hdr + 8)
  {
  }

  lemma TypeInv(c: Config, s: State)
    requires Inv(c, s) && s.driver.SetType?
    ensures Inv(c, DriverStep(c, s))
  {
    hide Le32, Lba, EncLe32, LbaBytes;
    TypeStored(c, s.mem);
  }

  lemma SectorInv(c: Config, s: State)
    requires Inv(c, s) && s.driver.SetSector?
    ensures Inv(c, DriverStep(c, s))
  {
    hide Le32, Lba, EncLe32, LbaBytes;
    SectorStored(c, s.mem, s.driver.r.lba);
  }

  lemma StatusInv(c: Config, s: State)
    requires Inv(c, s) && s.driver.SetStatus?
    ensures Inv(c, DriverStep(c, s))
  {
    hide Le32, Lba;
    HeaderKept(c, s, c.status, 0xFF);
  }

  lemma DescInv(c: Config, s: State)
    requires Inv(c, s) && s.driver.SetDesc?
    ensures Inv(c, DriverStep(c, s))
  {
    hide Le32, Lba, Chain;
  }

  lemma PublishInv(c: Config, s: State)
    requires Inv(c, s) && (s.driver.ReadUsed? || s.driver.StoreRing? || s.driver.BumpAvail?)
    ensures Inv(c, DriverStep(c, s))
  {
    hide Le32, Lba, Chain, Framed;
  }

  lemma WaitInv(c: Config, s: State)
    requires Inv(c, s) && (s.driver.Poll? || s.driver.Recheck? || s.driver.CheckStatus?)
    ensures Inv(c, DriverStep(c, s))
  {
    hide Le32, Lba, Chain, Framed, Serving, DataRight;
  }

  lemma DriverInv(c: Config, s: State)
    requires Inv(c, s) && Enabled(c, s, Drive)
    ensures Inv(c, Step(c, s, Drive))
  {
    hide Inv, DriverStep;
    match s.driver
    case SetType(_) => TypeInv(c, s);
    case SetSector(_) => SectorInv(c, s);
    case SetStatus(_) => StatusInv(c, s);
    case SetDesc(_, _, _) => DescInv(c, s);
    case Poll(_, _, _) => WaitInv(c, s);
    case Recheck(_, _) => WaitInv(c, s);
    case CheckStatus(_) => WaitInv(c, s);
    case _ => PublishInv(c, s);
  }

  lemma TypeStored(c: Config, mem: seq<byte>)
    requires |mem| == TWO32 && ValidConfig(c)
    ensures TypeSet(c, Patch(mem, c.hdr, EncLe32(T_IN) + EncLe32(0)))
  {
  }

  lemma SectorStored(c: Config, mem: seq<byte>, lba: nat)
    requires |mem| == TWO32 && ValidConfig(c) && lba < TWO64
    ensures var m := Patch(mem, c.hdr + 8, LbaBytes(lba));
            Lba(m, c.hdr + 8) == lba && (TypeSet(c, m) <==> TypeSet(c, mem))
  {
  }

  /** A device that is not resting serves a driver that waits. */
  lemma DeviceServes(c: Config, s: State)
    requires Inv(c, s) && (!s.device.Waiting? || s.lastAvail != s.rings.availIdx)
    ensures s.driver.Poll? || s.driver.Recheck? || s.driver.TimedOut?
    ensures ValidReq(c, s.driver.r) && InFlight(c, s, s.driver.r, s.driver.want) && Framed(c, s.mem, s.base, s.driver.r)
  {
    hide Framed, InFlight, DataRight;
  }

  /** To keep the invariant while the driver waits it is enough to keep the request in flight and the frame. */
  lemma WaitingInv(c: Config, s: State, n: State)
    requires Inv(c, s) && (s.driver.Poll? || s.driver.Recheck? || s.driver.TimedOut?)
    requires Shapes(n) && n.driver == s.driver && ValidReq(c, s.driver.r)
    requires InFlight(c, n, s.driver.r, s.driver.want) && Framed(c, n.mem, n.base, s.driver.r)
    ensures Inv(c, n)
  {
    hide Framed, InFlight, DataRight;
  }

  lemma FetchWalk(c: Config, s: State, a: Action, r: Req, want: Idx)
    requires Shapes(s) && ValidConfig(c) && ValidReq(c, r) && Enabled(c, s, a) && (a.Fetch? || a.Walk?)
    requires InFlight(c, s, r, want)
    ensures InFlight(c, DeviceStep(c, s, a), r, want)
  {
    hide Le32, Lba, DataRight, Framed;
    if a.Walk? {
      WalkChain(c, s.device.at, s.device.got, r);
    }
  }

  lemma WalkChain(c: Config, at: nat, got: seq<Desc>, r: Req)
    requires at == |got| < 3 && got == Chain(c, r)[..at]
    ensures got + [Chain(c, r)[at]] == Chain(c, r)[..at + 1] && Chain(c, r)[..3] == Chain(c, r)
  {
  }

  lemma Decide(c: Config, s: State, a: Action, r: Req, want: Idx)
    requires Shapes(s) && ValidConfig(c) && ValidReq(c, r) && Enabled(c, s, a)
    requires a.Accept? || a.Reject? || a.Abort? || a.Fail?
    requires InFlight(c, s, r, want)
    ensures InFlight(c, DeviceStep(c, s, a), r, want)
  {
    hide Le32, Lba, DataRight, Framed;
  }

  /** When every byte is written the data is right, because the 32-bit length did not wrap. */
  lemma FinishRight(c: Config, s: State, r: Req, want: Idx)
    requires Shapes(s) && ValidConfig(c) && ValidReq(c, r) && Enabled(c, s, Finish)
    requires InFlight(c, s, r, want)
    ensures InFlight(c, DeviceStep(c, s, Finish), r, want)
  {
    hide Le32, Lba, Framed;
    LengthFits(c, r);
  }

  lemma LengthFits(c: Config, r: Req)
    requires ValidConfig(c) && ValidReq(c, r)
    ensures Chain(c, r)[1].len == Bytes512(r)
  {
  }

  lemma DataWrite(c: Config, s: State, a: Action, r: Req, want: Idx)
    requires Shapes(s) && ValidConfig(c) && ValidReq(c, r) && Enabled(c, s, a) && (a.Write? || a.Garbage?)
    requires InFlight(c, s, r, want) && Framed(c, s.mem, s.base, r)
    ensures InFlight(c, DeviceStep(c, s, a), r, want) && Framed(c, DeviceStep(c, s, a).mem, s.base, r)
  {
    hide Le32, Lba;
    LengthFits(c, r);
    HeaderKept(c, s, r.buf + a.k, DeviceStep(c, s, a).mem[r.buf + a.k]);
  }

  lemma StatusWrite(c: Config, s: State, r: Req, want: Idx)
    requires Shapes(s) && ValidConfig(c) && ValidReq(c, r) && Enabled(c, s, PutStatus)
    requires InFlight(c, s, r, want) && Framed(c, s.mem, s.base, r)
    ensures InFlight(c, DeviceStep(c, s, PutStatus), r, want) && Framed(c, DeviceStep(c, s, PutStatus).mem, s.base, r)
  {
    hide Le32, Lba, DataRight;
    HeaderKept(c, s, c.status, s.device.code);
    if s.device.code == 0 {
      DataKept(c, s.mem, c.status, s.device.code, r);
    }
  }

  lemma DataKept(c: Config, mem: seq<byte>, p: nat, b: byte, r: Req)
    requires |mem| == TWO32 && p < TWO32 && r.buf + Bytes512(r) <= TWO32 && !InBuf(r, p) && DataRight(c, mem, r)
    ensures DataRight(c, mem[p := b], r)
  {
    var after := mem[p := b];
    forall k | 0 <= k < Bytes512(r) ensures ByteRight(c, after, r, k) {
      assert ByteRight(c, mem, r, k);
    }
  }

  lemma UsedWrite(c: Config, s: State, a: Action, r: Req, want: Idx)
    requires Shapes(s) && ValidConfig(c) && ValidReq(c, r) && Enabled(c, s, a) && (a.PutUsed? || a.PutIdx?)
    requires InFlight(c, s, r, want)
    ensures InFlight(c, DeviceStep(c, s, a), r, want)
  {
    hide Le32, Lba, DataRight, Framed;
  }

  lemma DeviceInv(c: Config, s: State, a: Action)
    requires Inv(c, s) && Enabled(c, s, a) && !a.Call? && !a.Drive?
    ensures Inv(c, Step(c, s, a))
  {
    hide DriverOk, InFlight, Framed;
    DeviceServes(c, s);
    var r, want := s.driver.r, s.driver.want;
    match a {
      case Fetch => FetchWalk(c, s, a, r, want);
      case Walk => FetchWalk(c, s, a, r, want);
      case Finish => FinishRight(c, s, r, want);
      case Write(_) => DataWrite(c, s, a, r, want);
      case Garbage(_, _) => DataWrite(c, s, a, r, want);
      case PutStatus => StatusWrite(c, s, r, want);
      case PutUsed => UsedWrite(c, s, a, r, want);
      case PutIdx => UsedWrite(c, s, a, r, want);
      case _ => Decide(c, s, a, r, want);
    }
    WaitingInv(c, s, Step(c, s, a));
  }

  // ---------- whole runs ----------

  ghost predicate StepTo(c: Config, s: State, a: Action, n: State) {
    Shapes(s) && ValidConfig(c) && Enabled(c, s, a) && n == Step(c, s, a)
  }

  /** Any interleaving of calls, driver steps and device steps, from a freshly initialised queue. */
  ghost predicate IsRun(c: Config, states: seq<State>, acts: seq<Action>) {
    && |states| == |acts| + 1 && Init(c, states[0])
    && forall i :: 0 <= i < |acts| ==> StepTo(c, states[i], acts[i], states[i + 1])
  }

  lemma {:induction false} RunInv(c: Config, states: seq<State>, acts: seq<Action>, i: nat)
    requires IsRun(c, states, acts) && i < |states|
    ensures Inv(c, states[i])
  {
    hide Inv, Init, Step, Enabled;
    if i == 0 {
      InitInv(c, states[0]);
    } else {
      RunInv(c, states, acts, i - 1);
      var s, a := states[i - 1], acts[i - 1];
      assert StepTo(c, s, a, states[i - 1 + 1]);
      if a.Call? {
        CallInv(c, s, a.r);
      } else if a.Drive? {
        DriverInv(c, s);
      } else {
        DeviceInv(c, s, a);
      }
    }
  }

  /** How many chains are published and not yet returned. */
  function Outstanding(s: State): nat {
    (s.rings.availIdx - s.rings.usedIdx) % TWO16
  }

  /** At every point of every run at most one chain is outstanding, also across the 16-bit wrap. */
  lemma AtMostOne(c: Config, states: seq<State>, acts: seq<Action>, i: nat)
    requires IsRun(c, states, acts) && i < |states|
    ensures Outstanding(states[i]) <= 1
    ensures !states[i].device.Waiting? ==> Outstanding(states[i]) == 1
  {
    hide IsRun, HeaderSet, DescsSet, Framed, Completed, Serving, DataRight, ValidReq;
    RunInv(c, states, acts, i);
  }

  /** Between calls the two indices agree and the device is at rest. */
  lemma BetweenCalls(c: Config, states: seq<State>, acts: seq<Action>, i: nat)
    requires IsRun(c, states, acts) && i < |states|
    requires states[i].driver.Idle? || states[i].driver.Done?
    ensures states[i].rings.usedIdx == states[i].rings.availIdx && states[i].device.Waiting?
  {
    hide IsRun, Framed, DataRight, ValidReq;
    RunInv(c, states, acts, i);
  }

  /** Whenever the driver polls, the device finds a chain of three buffers: a sixteen-byte header it may only read, of
      request type 0 and the sector asked for, the caller's buffer and one status byte, which it may write. Until it
      answers, the status byte holds 0xFF. */
  lemma PublishedChain(c: Config, states: seq<State>, acts: seq<Action>, i: nat)
    requires IsRun(c, states, acts) && i < |states| && states[i].driver.Poll?
    ensures var s, r, d := states[i], states[i].driver.r, states[i].rings.desc;
            && Shapes(s) && ValidConfig(c)
            && d[0].more && d[0].link == 1 && d[1].more && d[1].link == 2 && !d[2].more
            && !d[0].write && d[0].addr == c.hdr && d[0].len == 16
            && d[1].write && d[1].addr == r.buf && d[1].len == 512 * r.count
            && d[2].write && d[2].addr == c.status && d[2].len == 1
            && Le32(s.mem, c.hdr) == 0 && Le32(s.mem, c.hdr + 4) == 0 && LeNumber(s.mem[c.hdr + 8..c.hdr + 16]) == r.lba
            && (s.device.Waiting? && s.rings.usedIdx != s.driver.want ==> s.rings.avail[s.lastAvail % QNUM] == 0)
            && ((s.device.Waiting? && s.rings.usedIdx != s.driver.want) || s.device.Walking? || s.device.Transfer? ==>
                  s.mem[c.status] == 0xFF)
  {
    hide IsRun, Framed, Completed, DataRight, Le32, Lba, TransferOk;
    RunInv(c, states, acts, i);
    LengthFits(c, states[i].driver.r);
    LbaNumber(states[i].mem, c.hdr + 8);
    var d, r := states[i].rings.desc, states[i].driver.r;
    assert d[0] == Chain(c, r)[0] && d[1] == Chain(c, r)[1] && d[2] == Chain(c, r)[2];
  }

  // ---------- timeouts ----------

  /** The driver's steps since the last call. */
  function Drives(acts: seq<Action>): nat {
    if acts == [] || acts[|acts| - 1].Call? then 0
    else Drives(acts[..|acts| - 1]) + if acts[|acts| - 1].Drive? then 1 else 0
  }

  ghost predicate Polled(s: State, drives: nat) {
    && (s.driver.Poll? ==> s.driver.spins <= drives)
    && (s.driver.Recheck? && s.rings.usedIdx != s.driver.want ==> 100_000_000 <= drives)
    && (s.driver.TimedOut? ==> 100_000_000 <= drives)
  }

  /** A step that lets a driver that waits go on finds the used index where it was or one further. */
  lemma PolledStep(c: Config, s: State, a: Action, n: State, drives: nat)
    requires Inv(c, s) && StepTo(c, s, a, n) && Polled(s, drives)
    ensures Polled(n, if a.Call? then 0 else if a.Drive? then drives + 1 else drives)
  {
    hide Framed, DataRight, Completed, HeaderSet, DescsSet, TypeSet, Chain, Le32, Lba, EncLe32, LbaBytes, Patch;
  }

  lemma {:induction false} RunPolled(c: Config, states: seq<State>, acts: seq<Action>, i: nat)
    requires IsRun(c, states, acts) && i < |states|
    ensures Polled(states[i], Drives(acts[..i]))
  {
    hide Polled, Inv, Step, Enabled;
    if i == 0 {
      assert states[0].driver == Idle;
      IdlePolled(states[0]);
    } else {
      RunPolled(c, states, acts, i - 1);
      RunInv(c, states, acts, i - 1);
      assert StepTo(c, states[i - 1], acts[i - 1], states[i - 1 + 1]);
      PolledStep(c, states[i - 1], acts[i - 1], states[i], Drives(acts[..i - 1]));
      assert acts[..i][..i - 1] == acts[..i - 1];
    }
  }

  lemma IdlePolled(s: State)
    requires s.driver.Idle?
    ensures Polled(s, 0)
  {
  }

  /** A call gives up only after the driver has looked a hundred million times. */
  lemma NoEarlyTimeout(c: Config, states: seq<State>, acts: seq<Action>, i: nat)
    requires IsRun(c, states, acts) && i < |states| && states[i].driver.TimedOut?
    ensures 100_000_000 <= Drives(acts[..i])
  {
    hide Drives, IsRun;
    RunPolled(c, states, acts, i);
  }

  // ---------- what a read returns ----------

  /** A call that returns 0 leaves the requested sectors in the caller's buffer, and only the buffer, the header, the
      status byte and the rings differ from the memory the call started with. */
  lemma ReadReturnsSectors(c: Config, states: seq<State>, acts: seq<Action>, i: nat)
    requires IsRun(c, states, acts) && i < |states|
    requires states[i].driver.Done? && states[i].driver.ok
    ensures var s, r := states[i], states[i].driver.r;
            && Shapes(s) && ValidReq(c, r)
            && (r.count != 0 ==>
                  && SECTOR * r.lba + Bytes512(r) <= |c.disk|
                  && s.mem[r.buf..r.buf + Bytes512(r)] == c.disk[SECTOR * r.lba..SECTOR * r.lba + Bytes512(r)])
            && Framed(c, s.mem, s.base, r)
  {
    hide IsRun, Framed;
    RunInv(c, states, acts, i);
    var s, r := states[i], states[i].driver.r;
    if r.count != 0 {
      assert ByteRight(c, s.mem, r, Bytes512(r) - 1);
      SameBytes(c, s.mem, r);
    }
  }

  lemma SameBytes(c: Config, mem: seq<byte>, r: Req)
    requires |mem| == TWO32 && r.buf + Bytes512(r) <= TWO32 && DataRight(c, mem, r)
    requires SECTOR * r.lba + Bytes512(r) <= |c.disk|
    ensures mem[r.buf..r.buf + Bytes512(r)] == c.disk[SECTOR * r.lba..SECTOR * r.lba + Bytes512(r)]
  {
    var x, y := mem[r.buf..r.buf + Bytes512(r)], c.disk[SECTOR * r.lba..SECTOR * r.lba + Bytes512(r)];
    forall k | 0 <= k < |x| ensures x[k] == y[k] {
      assert ByteRight(c, mem, r, k);
    }
  }
}
