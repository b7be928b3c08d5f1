/** Every request the disk can serve can complete: a run from any rest state to a return of 0. */
module VirtioProgress {
  import opened Bytes
  import opened Machine
  import opened VirtioBlk

  function Upto(n: nat): (s: set<nat>)
    ensures |s| == n && forall k: nat :: k in s <==> k < n
  {
    if n == 0 then {} else Upto(n - 1) + {n - 1}
  }

  /** The request is on its way and the device means well. */
  ghost predicate OnTrack(c: Config, s: State, r: Req) {
    && Inv(c, s) && SECTOR * r.lba + Bytes512(r) <= |c.disk| && 0 < r.count
    && match s.driver
       case Idle => false
       case Done(_, _) => false
       case TimedOut(_, _) => false
       case Poll(q, want, _) => q == r && Willing(c, s, r, want)
       case Recheck(q, want) => q == r && s.rings.usedIdx == want && s.mem[c.status] == 0
       case CheckStatus(q) => q == r && s.mem[c.status] == 0
       case _ => s.driver.r == r
  }

  ghost predicate Willing(c: Config, s: State, r: Req, want: Idx)
    requires Shapes(s) && ValidConfig(c)
  {
    match s.device
    case Waiting => s.rings.usedIdx == want ==> s.mem[c.status] == 0
    case Walking(_, _, _) => true
    case Reading(_, _) => true
    case Transfer(_, got, _, written) => exists n :: 0 <= n <= Bytes512(r) && written == Upto(n)
    case Failing(_, _) => false
    case StoreStatus(_, _, code) => code == 0
    case StoreUsed(_, _) => s.mem[c.status] == 0
    case BumpUsed => s.mem[c.status] == 0
  }

  /** The action that brings the request forward. */
  ghost function Best(s: State): Action {
    if !s.driver.Poll? || s.rings.usedIdx == s.driver.want then Drive
    else match s.device
         case Waiting => Fetch
         case Walking(_, _, _) => Walk
         case Reading(_, _) => Accept
         case Transfer(_, got, _, written) =>
           if |got| == 3 && |written| < got[1].len then Write(|written|) else Finish
         case Failing(_, _) => Fail(1)
         case StoreStatus(_, _, _) => PutStatus
         case StoreUsed(_, _) => PutUsed
         case BumpUsed => PutIdx
  }

  /** How far the request still has to go. */
  ghost function Rank(s: State, len: nat): nat {
    match s.driver
    case SetType(_) => 40 + len
    case SetSector(_) => 39 + len
    case SetStatus(_) => 38 + len
    case ReadUsed(_) => 37 + len
    case SetDesc(_, _, i) => if i < 3 then 36 - i + len else 33 + len
    case StoreRing(_, _) => 32 + len
    case BumpAvail(_, _, _) => 31 + len
    case Poll(_, want, _) =>
      if s.rings.usedIdx == want then 3
      else (match s.device
            case Waiting => 20 + len
            case Walking(_, at, _) => if at < 5 then 19 - at + len else 14 + len
            case Reading(_, _) => 13 + len
            case Transfer(_, _, _, written) => if |written| <= len then 12 + len - |written| else 12
            case StoreStatus(_, _, _) => 7
            case StoreUsed(_, _) => 6
            case BumpUsed => 5
            case Failing(_, _) => 0)
    case Recheck(_, _) => 2
    case CheckStatus(_) => 1
    case _ => 0
  }

  // ---------- one step ----------

  ghost predicate Ahead(c: Config, s: State, a: Action, r: Req)
    requires Shapes(s) && ValidConfig(c)
  {
    && Enabled(c, s, a) && Inv(c, Step(c, s, a))
    && (Step(c, s, a).driver == Done(r, true)
        || (OnTrack(c, Step(c, s, a), r) && Rank(Step(c, s, a), Bytes512(r)) < Rank(s, Bytes512(r))))
  }

  lemma DriverAhead(c: Config, s: State, r: Req)
    requires OnTrack(c, s, r) && Best(s).Drive?
    ensures Ahead(c, s, Drive, r)
  {
    hide HeaderSet, TypeSet, DescsSet, Framed, DataRight, Serving, Chain, Le32, Lba, EncLe32, LbaBytes, Patch;
    assert Enabled(c, s, Drive);
    DriverInv(c, s);
    if s.driver.BumpAvail? {
      StillQuiet(c, s, r);
    }
  }

  /** Until the index is published nothing has moved on the device's side. */
  lemma StillQuiet(c: Config, s: State, r: Req)
    requires OnTrack(c, s, r) && s.driver.BumpAvail?
    ensures Quiet(s) && s.driver.want == Next(s.rings.usedIdx) && s.rings.usedIdx != s.driver.want
  {
    hide HeaderSet, DescsSet, Framed;
  }

  /** While the request is in flight the device has its chain. */
  lemma Polled(c: Config, s: State, r: Req)
    requires OnTrack(c, s, r) && s.driver.Poll? && s.rings.usedIdx != s.driver.want
    ensures Shapes(s) && ValidConfig(c) && ValidReq(c, r) && s.driver.r == r && Willing(c, s, r, s.driver.want)
    ensures InFlight(c, s, r, s.driver.want)
  {
    hide InFlight, Framed;
  }

  lemma FetchAhead(c: Config, s: State, r: Req)
    requires OnTrack(c, s, r) && s.driver.Poll? && s.rings.usedIdx != s.driver.want
    requires (s.device.Waiting? || s.device.Walking?)
    ensures Ahead(c, s, Best(s), r)
  {
    hide Framed, HeaderSet, Inv, DataRight;
    Polled(c, s, r);
    DeviceInv(c, s, Best(s));
    if s.device.Walking? {
      WalkChain(c, s.device.at, s.device.got, r);
    }
  }

  lemma AcceptAhead(c: Config, s: State, r: Req)
    requires OnTrack(c, s, r) && s.driver.Poll? && s.rings.usedIdx != s.driver.want && s.device.Reading?
    ensures Ahead(c, s, Best(s), r)
  {
    hide Framed, Inv, DataRight, Lba, Le32;
    Polled(c, s, r);
    LengthFits(c, r);
    assert Enabled(c, s, Accept);
    DeviceInv(c, s, Accept);
    var t := Step(c, s, Accept);
    assert t.device.written == Upto(0);
  }

  lemma TransferFacts(c: Config, s: State, r: Req) returns (n: nat)
    requires OnTrack(c, s, r) && s.driver.Poll? && s.rings.usedIdx != s.driver.want && s.device.Transfer?
    ensures Shapes(s) && ValidConfig(c) && s.driver.r == r && DataChain(s.device.got) && |s.device.got| == 3
    ensures s.device.got[1].len == Bytes512(r) && s.device.got[1].write
    ensures s.device.sector == r.lba && n <= Bytes512(r) && s.device.written == Upto(n)
    ensures SECTOR * r.lba + Bytes512(r) <= |c.disk|
    ensures Inv(c, s) && 0 < r.count
  {
    hide Framed, DataRight, Lba, Le32, HeaderSet, DescsSet, TransferOk, Upto;
    Polled(c, s, r);
    LengthFits(c, r);
    n :| 0 <= n <= Bytes512(r) && s.device.written == Upto(n);
  }

  lemma TransferAhead(c: Config, s: State, r: Req)
    requires OnTrack(c, s, r) && s.driver.Poll? && s.rings.usedIdx != s.driver.want && s.device.Transfer?
    ensures Ahead(c, s, Best(s), r)
  {
    hide OnTrack, Inv, Willing, DataChain, Upto, Ahead;
    var n := TransferFacts(c, s, r);
    if n < Bytes512(r) {
      WriteAhead(c, s, r, n);
    } else {
      LastAhead(c, s, r, n);
    }
  }

  lemma WriteAhead(c: Config, s: State, r: Req, n: nat)
    requires Shapes(s) && Inv(c, s) && s.driver.Poll? && s.driver.r == r && s.rings.usedIdx != s.driver.want
    requires ValidConfig(c)
    requires s.device.Transfer? && |s.device.got| == 3 && DataChain(s.device.got) && s.device.got[1].len == Bytes512(r)
    requires s.device.sector == r.lba && s.device.got[1].write
    requires n < Bytes512(r) && s.device.written == Upto(n) && SECTOR * r.lba + Bytes512(r) <= |c.disk| && 0 < r.count
    ensures Ahead(c, s, Write(n), r)
  {
    hide OnTrack, Inv, Willing, DataChain, Upto;
    NextByte(c, s, r, n);
    DeviceInv(c, s, Write(n));
    var t := Step(c, s, Write(n));
    UptoNext(n);
    NextWilling(c, t, r, n + 1);
  }

  lemma NextByte(c: Config, s: State, r: Req, n: nat)
    requires Shapes(s) && ValidConfig(c) && s.device.Transfer? && DataChain(s.device.got) && s.device.sector == r.lba
    requires s.device.got[1].write && s.device.got[1].len == Bytes512(r) && n < Bytes512(r)
    requires s.device.written == Upto(n) && SECTOR * r.lba + Bytes512(r) <= |c.disk|
    ensures Enabled(c, s, Write(n))
  {
  }

  lemma LastAhead(c: Config, s: State, r: Req, n: nat)
    requires Shapes(s) && Inv(c, s) && s.driver.Poll? && s.driver.r == r && s.rings.usedIdx != s.driver.want
    requires ValidConfig(c)
    requires s.device.Transfer? && |s.device.got| == 3 && DataChain(s.device.got) && s.device.got[1].len == Bytes512(r)
    requires n == Bytes512(r) && s.device.written == Upto(n) && SECTOR * r.lba + Bytes512(r) <= |c.disk| && 0 < r.count
    ensures Ahead(c, s, Finish, r)
  {
    hide OnTrack, Inv, Willing, DataChain, Upto;
    assert Enabled(c, s, Finish);
    DeviceInv(c, s, Finish);
    FinishWilling(c, Step(c, s, Finish), r);
  }

  lemma UptoNext(n: nat)
    ensures Upto(n) + {n} == Upto(n + 1)
  {
  }

  lemma NextWilling(c: Config, t: State, r: Req, n: nat)
    requires Inv(c, t) && t.driver.Poll? && t.driver.r == r && t.device.Transfer? && t.device.written == Upto(n)
    requires n <= Bytes512(r)
    requires SECTOR * r.lba + Bytes512(r) <= |c.disk| && 0 < r.count
    ensures OnTrack(c, t, r)
  {
    hide Inv, Upto;
    InvShapes(c, t);
  }

  lemma FinishWilling(c: Config, t: State, r: Req)
    requires Inv(c, t) && t.driver.Poll? && t.driver.r == r && t.device.StoreStatus? && t.device.code == 0
    requires SECTOR * r.lba + Bytes512(r) <= |c.disk| && 0 < r.count
    ensures OnTrack(c, t, r)
  {
    hide Inv;
    InvShapes(c, t);
  }

  lemma InvShapes(c: Config, s: State)
    requires Inv(c, s)
    ensures Shapes(s) && ValidConfig(c)
  {
  }

  lemma FinishAhead(c: Config, s: State, r: Req)
    requires OnTrack(c, s, r) && s.driver.Poll? && s.rings.usedIdx != s.driver.want
    requires s.device.StoreStatus? || s.device.StoreUsed? || s.device.BumpUsed?
    ensures Ahead(c, s, Best(s), r)
  {
    hide Framed, Inv, DataRight, Lba, Le32, HeaderSet, DescsSet;
    Polled(c, s, r);
    DeviceInv(c, s, Best(s));
  }

  lemma StepAhead(c: Config, s: State, r: Req)
    requires OnTrack(c, s, r)
    ensures Ahead(c, s, Best(s), r)
  {
    hide Ahead, Inv;
    if Best(s).Drive? {
      DriverAhead(c, s, r);
    } else {
      match s.device
      case Waiting => FetchAhead(c, s, r);
      case Walking(_, _, _) => FetchAhead(c, s, r);
      case Reading(_, _) => AcceptAhead(c, s, r);
      case Transfer(_, _, _, _) => TransferAhead(c, s, r);
      case _ => FinishAhead(c, s, r);
    }
  }

  // ---------- the whole call ----------

  /** A list of actions executed from a state. */
  ghost predicate Leads(c: Config, s: State, acts: seq<Action>, t: State)
    decreases |acts|
  {
    if acts == [] then s == t
    else Shapes(s) && ValidConfig(c) && Enabled(c, s, acts[0]) && Leads(c, Step(c, s, acts[0]), acts[1..], t)
  }

  lemma {:induction false} Completes(c: Config, s: State, r: Req) returns (acts: seq<Action>, t: State)
    requires OnTrack(c, s, r)
    ensures Leads(c, s, acts, t) && t.driver == Done(r, true)
    decreases Rank(s, Bytes512(r))
  {
    hide OnTrack, Inv, Step, Enabled, Best, Rank;
    StepAhead(c, s, r);
    TrackShapes(c, s, r);
    var a := Best(s);
    var n := Step(c, s, a);
    if n.driver == Done(r, true) {
      acts, t := [a], n;
      assert acts[1..] == [];
    } else {
      var more;
      more, t := Completes(c, n, r);
      acts := [a] + more;
      assert acts[1..] == more;
    }
  }

  lemma TrackShapes(c: Config, s: State, r: Req)
    requires OnTrack(c, s, r)
    ensures Shapes(s) && ValidConfig(c)
  {
  }

  /** From rest, every request within the disk has a run that ends in a return of 0. */
  lemma EveryReadCanReturn(c: Config, s: State, r: Req) returns (acts: seq<Action>, t: State)
    requires Inv(c, s) && (s.driver.Idle? || s.driver.Done?) && ValidReq(c, r) && 0 < r.count
    requires SECTOR * r.lba + Bytes512(r) <= |c.disk|
    ensures Leads(c, s, acts, t) && t.driver == Done(r, true)
  {
    hide Framed, DataRight;
    CallInv(c, s, r);
    var n := Step(c, s, Call(r));
    var more;
    more, t := Completes(c, n, r);
    acts := [Call(r)] + more;
    assert acts[1..] == more;
  }
}
