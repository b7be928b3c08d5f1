/**
  Traps into the stage-0 kernel: the saved frame lies in the memory the calls store to, and each
  call names the ranges it stores through user pointers. A range that misses the kernel's words
  leaves the kernel's invariant and the frame intact; one that hits them need not.
  */
module Stage0Traps {
  import opened Bytes
  import opened Machine
  import opened UserMemory
  import opened KernelWords
  import opened ProcFs
  import opened ProcPaths
  import opened Stage0Calls

  datatype Frame = Frame(ra: Word, gp: Word, tp: Word, t0: Word, t1: Word, t2: Word, s0: Word, s1: Word,
                         a0: Word, a1: Word, a2: Word, a3: Word, a4: Word, a5: Word, a6: Word, a7: Word,
                         userSp: Word, sepc: Word, scause: Word, stval: Word)

  const A0 := FRAME + 8
  const SEPC := FRAME + 17

  function FrameWords(f: Frame): (w: seq<Word>)
    ensures |w| == WORDS - FRAME
  {
    [f.ra, f.gp, f.tp, f.t0, f.t1, f.t2, f.s0, f.s1, f.a0, f.a1, f.a2, f.a3, f.a4, f.a5, f.a6, f.a7,
     f.userSp, f.sepc, f.scause, f.stval]
  }

  function FrameAt(w: seq<Word>): Frame
    requires |w| == WORDS
  {
    Frame(w[6], w[7], w[8], w[9], w[10], w[11], w[12], w[13], w[14], w[15], w[16], w[17], w[18], w[19], w[20], w[21],
          w[22], w[23], w[24], w[25])
  }

  const ECALL_U: Word := 8
  const SYS_OPENAT: Word := 56
  const SYS_CLOSE: Word := 57
  const SYS_GETDENTS64: Word := 61
  const SYS_READ: Word := 63
  const SYS_FSTATAT64: Word := 79
  const SYS_FSTAT64: Word := 80
  const SYS_MUNMAP: Word := 215
  const SYS_MREMAP: Word := 216
  const SYS_MMAP: Word := 222
  const SYS_MPROTECT: Word := 226
  const SYS_MADVISE: Word := 233
  const SYS_GETRANDOM: Word := 278

  /** Calls that set none of the kernel's six variables: identities, futex, signals, scheduling, clocks,
      polling, usage, umask, brk, mremap, munmap, mprotect, madvise, uname, getcwd, sysinfo, limits,
      statfs, access, readlink, statx, random, write and writev. */
  predicate Passive(n: Word) {
    n in {17, 43, 44, 48, 64, 66, 73, 78, 96, 98, 101, 113, 114, 115, 122, 123, 124, 134, 135, 153, 160, 165, 166,
          168, 169, 172, 173, 174, 175, 176, 177, 178, 179, 214, 215, 216, 226, 233, 261, 278, 291, 403, 406, 414, 422}
  }

  predicate Stateful(n: Word) {
    n in {SYS_OPENAT, SYS_CLOSE, SYS_GETDENTS64, SYS_READ, SYS_FSTATAT64, SYS_FSTAT64, SYS_MMAP}
  }

  predicate Returns(f: Frame) {
    f.scause == ECALL_U && (Passive(f.a7) || Stateful(f.a7))
  }

  // ---------- the ranges of the passive calls ----------

  datatype Range = Range(at: Word, len: nat)

  /** A range, unless the pointer is null. */
  function Opt(a: Word, n: nat): (r: seq<Range>)
    ensures forall x :: x in r ==> x == Range(a, n) && a != 0
  {
    if a == 0 then [] else [Range(a, n)]
  }

  /** The ranges a passive call may store to. */
  function StoresTo(f: Frame): (r: seq<Range>)
    ensures forall x :: x in r ==> x.at != 0 && x.len <= 390
  {
    match f.a7
    case 17 => if f.a1 >= 2 then Opt(f.a0, 2) else []
    case 43 => if f.a0 != 0 then Opt(f.a1, 88) else []
    case 44 => Opt(f.a1, 88)
    case 78 => if f.a1 != 0 && f.a3 >= 11 then Opt(f.a2, 11) else []
    case 101 => Opt(f.a1, 8)
    case 113 => Opt(f.a1, 8)
    case 114 => Opt(f.a1, 8)
    case 115 => Opt(f.a3, 8)
    case 123 => if f.a0 <= 1 && f.a1 >= 4 then Opt(f.a2, 4) else []
    case 134 => if 0 < f.a0 < 65 then Opt(f.a2, 16) else []
    case 135 => Opt(f.a2, Min(f.a3, 8))
    case 153 => Opt(f.a0, 16)
    case 160 => Opt(f.a0, 390)
    case 165 => Opt(f.a1, 72)
    case 168 => Opt(f.a0, 4) + Opt(f.a1, 4)
    case 169 => Opt(f.a0, 8) + Opt(f.a1, 8)
    case 179 => Opt(f.a0, 64)
    case 261 => if f.a2 == 0 then Opt(f.a3, 16) else []
    case 278 => Opt(f.a0, Min(f.a1, 32))
    case 291 => if f.a1 != 0 then Opt(f.a4, 256) else []
    case 403 => Opt(f.a1, 16)
    case 406 => Opt(f.a1, 16)
    case _ => []
  }

  /** What a passive call returns, and the bytes it puts in each of its ranges; a call that fails stores fewer. */
  datatype Effect = Effect(ret: Word, data: seq<seq<byte>>)

  predicate EffectOk(f: Frame, e: Effect) {
    && |e.data| == |StoresTo(f)| && (forall i :: 0 <= i < |e.data| ==> |e.data[i]| <= StoresTo(f)[i].len)
    && (f.a7 == SYS_GETRANDOM ==> e == RandomEffect(f))
    && (f.a7 in {SYS_MUNMAP, SYS_MPROTECT, SYS_MADVISE} ==> e.ret == if BadRange(f) then Errno(EFAULT) else 0)
    && (f.a7 == SYS_MREMAP ==>
          e.ret == if BadRange(f) then Errno(EFAULT) else if f.a2 <= f.a1 then f.a0 else Errno(ENOMEM))
  }

  /** The check four calls make on the range they are given. */
  predicate BadRange(f: Frame) {
    f.a1 != 0 && !UserRange(f.a0, f.a1)
  }

  function Xor(a: byte, b: byte): byte {
    ((a as bv8) ^ (b as bv8)) as int
  }

  /** The deterministic bytes of getrandom. */
  function RandomBytes(salt: Word, n: nat): (b: seq<byte>)
    ensures |b| == n
  {
    seq(n, i requires 0 <= i < n => Xor(Xor(0xa5, i * 73 % 256), salt % 256))
  }

  function RandomEffect(f: Frame): Effect {
    if f.a0 == 0 then Effect(Errno(EFAULT), [])
    else Effect(Min(f.a1, 32), [RandomBytes(f.a2, Min(f.a1, 32))])
  }

  // ---------- stores ----------

  datatype Block = Block(at: Word, data: seq<byte>)

  predicate BlocksOk(bs: seq<Block>) {
    forall b :: b in bs ==> |b.data| <= TWO32
  }

  ghost function PutAll(mem: seq<byte>, bs: seq<Block>): (r: seq<byte>)
    requires |mem| == TWO32 && BlocksOk(bs)
    ensures |r| == TWO32
    decreases |bs|
  {
    if bs == [] then mem else PutAll(Put(mem, bs[0].at, bs[0].data), bs[1..])
  }

  ghost predicate AllMiss(l: Layout, bs: seq<Block>)
    requires LayoutOk(l)
  {
    forall b :: b in bs ==> Misses(l, b.at, |b.data|)
  }

  lemma {:induction false} PutAllMisses(l: Layout, mem: seq<byte>, bs: seq<Block>)
    requires |mem| == TWO32 && LayoutOk(l) && BlocksOk(bs) && AllMiss(l, bs)
    ensures Words(l, PutAll(mem, bs)) == Words(l, mem)
    decreases |bs|
  {
    hide Put, Words, LayoutOk, Misses;
    if bs != [] {
      assert bs[0] in bs;
      PutMisses(l, mem, bs[0].at, bs[0].data);
      PutAllMisses(l, Put(mem, bs[0].at, bs[0].data), bs[1..]);
    }
  }

  function EffectBlocks(f: Frame, e: Effect): (bs: seq<Block>)
    requires EffectOk(f, e)
    ensures |bs| == |e.data| && BlocksOk(bs)
  {
    var r := StoresTo(f);
    assert forall i :: 0 <= i < |r| ==> r[i] in r;
    seq(|e.data|, i requires 0 <= i < |e.data| => Block(r[i].at, e.data[i]))
  }

  /** Everything a call stores through pointers of its caller. */
  ghost function Stored(env: Env, s: State, f: Frame, e: Effect): (bs: seq<Block>)
    requires Shape(env, s) && EffectOk(f, e)
  {
    var w := WordsOf(env, s);
    if f.a7 == SYS_READ then
      if FileOpen(w, f.a0) && f.a1 != 0 then [Block(f.a1, ReadData(env, w, f.a2))] else []
    else if f.a7 == SYS_GETDENTS64 then
      if DirOpen(w, f.a0) && f.a1 != 0 && w[DIR_OFFSET] <= 9 then [Block(f.a1, Listing(env, s, f.a2))] else []
    else if f.a7 == SYS_FSTAT64 then StatBlock(FstatMeta(env, w, f.a0), f.a1)
    else if f.a7 == SYS_FSTATAT64 then StatBlock(PathMetaOf(env, s, f.a1), f.a2)
    else if Passive(f.a7) then EffectBlocks(f, e)
    else []
  }

  function StatBlock(meta: Option<Meta>, buf: Word): seq<Block> {
    if buf != 0 && meta.Some? then [Block(buf, StatOf(meta.value))] else []
  }

  // ---------- one trap ----------

  ghost function Call(env: Env, s: State, f: Frame, e: Effect): (o: Out)
    requires Shape(env, s) && EffectOk(f, e)
    ensures |o.s.mem| == TWO32
  {
    if f.a7 == SYS_MMAP then MmapCall(env, s, f.a1)
    else if f.a7 == SYS_OPENAT then OpenCall(env, s, f.a1)
    else if f.a7 == SYS_GETDENTS64 then DentsCall(env, s, f.a0, f.a1, f.a2)
    else if f.a7 == SYS_FSTAT64 then FstatCall(env, s, f.a0, f.a1)
    else if f.a7 == SYS_FSTATAT64 then FstatAtCall(env, s, f.a1, f.a2)
    else if f.a7 == SYS_READ then ReadCall(env, s, f.a0, f.a1, f.a2)
    else if f.a7 == SYS_CLOSE then CloseCall(env, s, f.a0)
    else Out(e.ret, s.(mem := PutAll(s.mem, EffectBlocks(f, e))))
  }

  /** Result into a0, and past the ecall: both in the frame as memory now has it. */
  ghost function Finish(l: Layout, mem: seq<byte>, ret: Word): (r: seq<byte>)
    requires |mem| == TWO32 && LayoutOk(l)
    ensures |r| == TWO32
  {
    var m := SetWord(l, mem, A0, ret);
    SetWord(l, m, SEPC, Wrap(WordAt(l, m, SEPC) + 4))
  }

  /** `xnu_stage0_user_trap_dispatch` on the frame in memory; `None` is a trap that never returns to the user. */
  ghost function Dispatched(env: Env, s: State, e: Effect): (r: Option<State>)
    requires Shape(env, s) && EffectOk(FrameAt(WordsOf(env, s)), e)
    ensures r.Some? ==> |r.value.mem| == TWO32
  {
    var f := FrameAt(WordsOf(env, s));
    if !Returns(f) then None
    else
      var o := Call(env, s, f, e);
      Some(o.s.(mem := Finish(env.layout, o.s.mem, o.ret)))
  }

  ghost function StoreFrame(l: Layout, mem: seq<byte>, w: seq<Word>, n: nat): (r: seq<byte>)
    requires |mem| == TWO32 && LayoutOk(l) && |w| == WORDS - FRAME && n <= |w|
    ensures |r| == TWO32
  {
    if n == 0 then mem else SetWord(l, StoreFrame(l, mem, w, n - 1), FRAME + n - 1, w[n - 1])
  }

  /** The user program runs, rewriting its window as it likes, and traps. */
  datatype Trap = Trap(user: seq<byte>, frame: Frame, effect: Effect)

  predicate TrapOk(t: Trap) {
    |t.user| == USER_END - USER_BASE && EffectOk(t.frame, t.effect)
  }

  ghost function Enter(env: Env, s: State, t: Trap): (r: State)
    requires Shape(env, s) && TrapOk(t)
    ensures |r.mem| == TWO32
  {
    s.(mem := StoreFrame(env.layout, Put(s.mem, USER_BASE, t.user), FrameWords(t.frame), WORDS - FRAME))
  }

  lemma {:induction false} StoreFrameLaw(l: Layout, mem: seq<byte>, w: seq<Word>, n: nat)
    requires |mem| == TWO32 && LayoutOk(l) && |w| == WORDS - FRAME && n <= |w|
    ensures var v := Words(l, mem);
            Words(l, StoreFrame(l, mem, w, n)) == v[..FRAME] + w[..n] + v[FRAME + n..]
  {
    hide Words, LayoutOk, SetWord;
    if n > 0 {
      StoreFrameLaw(l, mem, w, n - 1);
      SetWordWords(l, StoreFrame(l, mem, w, n - 1), FRAME + n - 1, w[n - 1]);
    }
  }

  /** Entering a trap keeps the kernel's variables, whatever the program did to its window, and saves the frame. */
  lemma EnterLaw(env: Env, s: State, t: Trap)
    requires Shape(env, s) && TrapOk(t)
    ensures var r := Enter(env, s, t);
            && WordsOf(env, r)[..FRAME] == WordsOf(env, s)[..FRAME] && FrameAt(WordsOf(env, r)) == t.frame
            && (Valid(env, s) ==> Valid(env, r))
  {
    hide Words, LayoutOk, StoreFrame, Put, FrameWords, Misses, InKernel, EffectOk, MapsOk, FileOk, Table, ContentsOk;
    var l, w, m := env.layout, FrameWords(t.frame), Put(s.mem, USER_BASE, t.user);
    UserRangeMisses(l, USER_BASE, USER_END - USER_BASE);
    PutMisses(l, s.mem, USER_BASE, t.user);
    StoreFrameLaw(l, m, w, WORDS - FRAME);
    var v := WordsOf(env, Enter(env, s, t));
    assert v == WordsOf(env, s)[..FRAME] + w;
    SavedFrame(t.frame, v);
    SamePrefix(WordsOf(env, s), v);
    if Valid(env, s) {
      SameFile(env, WordsOf(env, s), v, s.delivered);
    }
  }

  lemma SavedFrame(f: Frame, v: seq<Word>)
    requires |v| == WORDS && v == v[..FRAME] + FrameWords(f)
    ensures FrameAt(v) == f
  {
  }

  lemma SamePrefix(w: seq<Word>, v: seq<Word>)
    requires |w| == |v| == WORDS && v[..FRAME] == w[..FRAME]
    ensures v[NEXT] == w[NEXT] && v[OPEN] == w[OPEN] && v[OFFSET] == w[OFFSET] && v[FILE] == w[FILE]
    ensures v[DIR_OPEN] == w[DIR_OPEN] && v[DIR_OFFSET] == w[DIR_OFFSET]
  {
    assert forall k :: 0 <= k < FRAME ==> v[..FRAME][k] == v[k] && w[..FRAME][k] == w[k];
  }

  // ---------- what a trap keeps ----------

  function Finished(w: seq<Word>, ret: Word): (v: seq<Word>)
    requires |w| == WORDS
    ensures |v| == WORDS
  {
    w[A0 := ret][SEPC := Wrap(w[SEPC] as int + 4)]
  }

  lemma FinishLaw(l: Layout, mem: seq<byte>, ret: Word)
    requires |mem| == TWO32 && LayoutOk(l)
    ensures Words(l, Finish(l, mem, ret)) == Finished(Words(l, mem), ret)
    ensures UserEq(l, Finish(l, mem, ret), mem)
  {
    hide LayoutOk, SetWord, UserEq;
    var m := SetWord(l, mem, A0, ret);
    SetWordWords(l, mem, A0, ret);
    assert WordAt(l, m, SEPC) == Words(l, m)[SEPC];
    SetWordWords(l, m, SEPC, Wrap(WordAt(l, m, SEPC) + 4));
    UserEqTrans(l, Finish(l, mem, ret), m, mem);
  }

  /** The saved frame survives the call; mappings are only added, one per successful mmap; a passive call changes no
      word. */
  ghost predicate CallKept(env: Env, s: State, f: Frame, o: Out)
    requires Valid(env, s)
  {
    && Valid(env, o.s) && WordsOf(env, o.s)[FRAME..] == WordsOf(env, s)[FRAME..]
    && o.s.maps == (if f.a7 == SYS_MMAP && MmapFits(WordsOf(env, s)[NEXT], f.a1)
                    then s.maps + [Mapping(o.ret, PageUp(f.a1))] else s.maps)
    && (!Stateful(f.a7) ==>
          WordsOf(env, o.s) == WordsOf(env, s) && o.s.delivered == s.delivered && o.s.listed == s.listed)
  }

  lemma OpenKept(env: Env, s: State, f: Frame)
    requires Valid(env, s) && Stateful(f.a7)
    ensures f.a7 == SYS_OPENAT ==> CallKept(env, s, f, OpenCall(env, s, f.a1))
    ensures f.a7 == SYS_CLOSE ==> CallKept(env, s, f, CloseCall(env, s, f.a0))
  {
    hide MapsOk, FileOk, DirOk, ContentsOk, LayoutOk, Words, Misses, EffectOk, StoresTo, Passive, UserEq, Table, Put;
    hide SetWord, OpenTarget;
    var t := OpenTarget(s.mem, f.a1);
    SetFileLaw(env, s, 1, if t.AFile? then t.id else 1);
    SetFileLaw(env, s, 0, 0);
    SetDirLaw(env, s, 0);
    SetDirLaw(env, s, 1);
  }

  lemma ReadKept(env: Env, s: State, f: Frame, e: Effect)
    requires Valid(env, s) && f.a7 == SYS_READ && EffectOk(f, e) && AllMiss(env.layout, Stored(env, s, f, e))
    ensures CallKept(env, s, f, ReadCall(env, s, f.a0, f.a1, f.a2))
  {
    hide MapsOk, FileOk, DirOk, ContentsOk, LayoutOk, Words, Misses, EffectOk, StoresTo, Passive, UserEq, Table, Put;
    hide ReadCall, ReadData;
    var w := WordsOf(env, s);
    if FileOpen(w, f.a0) && f.a1 != 0 {
      assert Block(f.a1, ReadData(env, w, f.a2)) in Stored(env, s, f, e);
    }
    ReadLaw(env, s, f.a0, f.a1, f.a2);
  }

  lemma DentsKept(env: Env, s: State, f: Frame, e: Effect)
    requires Valid(env, s) && f.a7 == SYS_GETDENTS64 && EffectOk(f, e) && AllMiss(env.layout, Stored(env, s, f, e))
    ensures CallKept(env, s, f, DentsCall(env, s, f.a0, f.a1, f.a2))
  {
    hide MapsOk, FileOk, ContentsOk, LayoutOk, Words, Misses, EffectOk, StoresTo, Passive, UserEq, Table, Put;
    hide DentsCall, Records, NextEntry, Decode, RecLen;
    var w := WordsOf(env, s);
    if DirOpen(w, f.a0) && f.a1 != 0 {
      assert Block(f.a1, Listing(env, s, f.a2)) in Stored(env, s, f, e);
    }
    GetdentsLaw(env, s, f.a0, f.a1, f.a2);
  }

  lemma StatKept(env: Env, s: State, f: Frame, e: Effect)
    requires Valid(env, s) && f.a7 in {SYS_FSTAT64, SYS_FSTATAT64} && EffectOk(f, e)
    requires AllMiss(env.layout, Stored(env, s, f, e))
    ensures f.a7 == SYS_FSTAT64 ==> CallKept(env, s, f, FstatCall(env, s, f.a0, f.a1))
    ensures f.a7 == SYS_FSTATAT64 ==> CallKept(env, s, f, FstatAtCall(env, s, f.a1, f.a2))
  {
    hide MapsOk, FileOk, DirOk, ContentsOk, LayoutOk, Words, Misses, EffectOk, StoresTo, Passive, UserEq, Table, Put;
    hide StatCall, PathMetaOf, FstatMeta, StatBytes;
    var meta, buf := PathMetaOf(env, s, f.a1), f.a2;
    if f.a7 == SYS_FSTAT64 {
      meta, buf := FstatMeta(env, WordsOf(env, s), f.a0), f.a1;
    }
    if buf != 0 && meta.Some? {
      assert Block(buf, StatOf(meta.value)) in Stored(env, s, f, e);
    }
    StatLaw(env, s, meta, buf, if f.a7 == SYS_FSTAT64 then EBADF else ENOENT);
  }

  lemma PassiveKept(env: Env, s: State, f: Frame, e: Effect)
    requires Valid(env, s) && Passive(f.a7) && !Stateful(f.a7) && EffectOk(f, e)
    requires AllMiss(env.layout, Stored(env, s, f, e))
    ensures CallKept(env, s, f, Call(env, s, f, e))
  {
    hide MapsOk, FileOk, DirOk, ContentsOk, LayoutOk, Words, Misses, EffectOk, StoresTo, Passive, UserEq, Table, Put;
    hide PutAll, EffectBlocks;
    PutAllMisses(env.layout, s.mem, EffectBlocks(f, e));
  }

  /** A call whose stores miss the kernel's words keeps the invariant and the frame. */
  lemma CallLaw(env: Env, s: State, f: Frame, e: Effect)
    requires Valid(env, s) && Returns(f) && EffectOk(f, e) && AllMiss(env.layout, Stored(env, s, f, e))
    ensures CallKept(env, s, f, Call(env, s, f, e))
  {
    hide MapsOk, FileOk, DirOk, ContentsOk, LayoutOk, Words, Misses, EffectOk, StoresTo, Passive, UserEq, Table, Put;
    hide MmapCall, OpenCall, CloseCall, DentsCall, ReadCall, FstatCall, FstatAtCall, EffectBlocks, PutAll, Stored;
    if f.a7 == SYS_MMAP {
      MmapLaw(env, s, f.a1);
    } else if f.a7 in {SYS_OPENAT, SYS_CLOSE} {
      OpenKept(env, s, f);
    } else if f.a7 == SYS_GETDENTS64 {
      DentsKept(env, s, f, e);
    } else if f.a7 in {SYS_FSTAT64, SYS_FSTATAT64} {
      StatKept(env, s, f, e);
    } else if f.a7 == SYS_READ {
      ReadKept(env, s, f, e);
    } else {
      PassiveKept(env, s, f, e);
    }
  }

  lemma FinishKeeps(env: Env, s: State, ret: Word)
    requires Valid(env, s)
    ensures Valid(env, s.(mem := Finish(env.layout, s.mem, ret)))
  {
    hide MapsOk, FileOk, DirOk, ContentsOk, LayoutOk, Words, Misses, EffectOk, StoresTo, Passive, UserEq, Table, Put;
    hide Finish;
    FinishLaw(env.layout, s.mem, ret);
    var w := WordsOf(env, s);
    SameFile(env, w, Finished(w, ret), s.delivered);
    SameDir(w, Finished(w, ret), s.listed);
  }

  lemma FinishedFrame(w: seq<Word>, v: seq<Word>, ret: Word)
    requires |w| == |v| == WORDS && v[FRAME..] == w[FRAME..]
    ensures var f := FrameAt(w); FrameAt(Finished(v, ret)) == f.(a0 := ret, sepc := Wrap(f.sepc + 4))
  {
    assert forall k :: FRAME <= k < WORDS ==> v[k] == v[FRAME..][k - FRAME] && w[k] == w[FRAME..][k - FRAME];
  }

  /** One trip into the kernel and back. */
  ghost function Step(env: Env, s: State, t: Trap): (r: Option<State>)
    requires Shape(env, s) && TrapOk(t)
    ensures r.Some? ==> |r.value.mem| == TWO32
  {
    EnterLaw(env, s, t);
    Dispatched(env, Enter(env, s, t), t.effect)
  }

  lemma StepReturns(env: Env, s: State, t: Trap)
    requires Shape(env, s) && TrapOk(t)
    ensures Step(env, s, t).Some? <==> Returns(t.frame)
  {
    hide LayoutOk, ContentsOk, Returns, Call, EffectOk, Enter, Finish, Words;
    EnterLaw(env, s, t);
  }

  /** No store of this trap's call hits a kernel word. */
  ghost predicate StepMisses(env: Env, s: State, t: Trap)
    requires Shape(env, s) && TrapOk(t)
  {
    AllMiss(env.layout, Stored(env, Enter(env, s, t), t.frame, t.effect))
  }

  /** A trap whose stores miss the kernel's words returns with the invariant kept, the result in a0, the program
      counter past the ecall, and every other saved register as it was. */
  lemma TrapLaw(env: Env, s: State, t: Trap)
    requires Valid(env, s) && TrapOk(t) && StepMisses(env, s, t)
    ensures Step(env, s, t).Some? <==> Returns(t.frame)
    ensures Returns(t.frame) ==>
              var x, f, r := Enter(env, s, t), t.frame, Step(env, s, t).value;
              var ret := Call(env, x, f, t.effect).ret;
              && Valid(env, r) && FrameAt(WordsOf(env, r)) == f.(a0 := ret, sepc := Wrap(f.sepc + 4))
              && r.maps == (if f.a7 == SYS_MMAP && MmapFits(WordsOf(env, s)[NEXT], f.a1)
                            then s.maps + [Mapping(ret, PageUp(f.a1))] else s.maps)
  {
    hide MapsOk, FileOk, DirOk, ContentsOk, LayoutOk, Words, Misses, EffectOk, StoresTo, Passive, UserEq, Table, Put;
    hide Finish, Call, Enter, Finished, FrameAt, Stored, Stateful, MmapFits, PageUp;
    EnterLaw(env, s, t);
    if Returns(t.frame) {
      var x := Enter(env, s, t);
      CallLaw(env, x, t.frame, t.effect);
      var o := Call(env, x, t.frame, t.effect);
      FinishLaw(env.layout, o.s.mem, o.ret);
      FinishKeeps(env, o.s, o.ret);
      FinishedFrame(WordsOf(env, x), WordsOf(env, o.s), o.ret);
      EnterMaps(env, s, t);
    }
  }

  lemma EnterMaps(env: Env, s: State, t: Trap)
    requires Shape(env, s) && TrapOk(t)
    ensures Enter(env, s, t).maps == s.maps && WordsOf(env, Enter(env, s, t))[NEXT] == WordsOf(env, s)[NEXT]
  {
    hide MapsOk, FileOk, DirOk, ContentsOk, LayoutOk, Words, Misses, EffectOk, StoresTo, Passive, UserEq, Table, Put;
    hide StoreFrame;
    EnterLaw(env, s, t);
    SamePrefix(WordsOf(env, s), WordsOf(env, Enter(env, s, t)));
  }

  // ---------- runs ----------

  /** The state after a run of traps; a trap that does not return ends it. */
  ghost function Run(env: Env, s: State, traps: seq<Trap>): (r: State)
    requires Shape(env, s) && forall t :: t in traps ==> TrapOk(t)
    ensures |r.mem| == TWO32
    decreases |traps|
  {
    if traps == [] then s
    else
      var next := Step(env, s, traps[0]);
      if next.None? then Enter(env, s, traps[0]) else Run(env, next.value, traps[1..])
  }

  lemma RunStep(env: Env, s: State, traps: seq<Trap>, i: nat)
    requires Shape(env, s) && i < |traps| && traps[i] in traps && forall t :: t in traps ==> TrapOk(t)
    ensures Step(env, s, traps[i]).Some? <==> Returns(traps[i].frame)
    ensures Run(env, s, traps[i..])
         == if Step(env, s, traps[i]).None? then Enter(env, s, traps[i])
            else Run(env, Step(env, s, traps[i]).value, traps[i + 1..])
  {
    hide Step, Enter, Returns, TrapOk, Shape;
    StepReturns(env, s, traps[i]);
    assert traps[i..][0] == traps[i] && traps[i..][1..] == traps[i + 1..];
  }

  lemma RunNone(env: Env, s: State, traps: seq<Trap>)
    requires Shape(env, s)
    ensures traps[|traps|..] == [] && Run(env, s, []) == s
  {
  }

  lemma StepIs(env: Env, s: State, t: Trap)
    requires Shape(env, s) && TrapOk(t) && FrameAt(WordsOf(env, Enter(env, s, t))) == t.frame
    ensures Step(env, s, t) == Dispatched(env, Enter(env, s, t), t.effect)
  {
  }

  /** No store of the run hits a kernel word. */
  ghost predicate RunMisses(env: Env, s: State, traps: seq<Trap>)
    requires Shape(env, s) && forall t :: t in traps ==> TrapOk(t)
    decreases |traps|
  {
    traps != [] ==>
      && StepMisses(env, s, traps[0])
      && (Step(env, s, traps[0]).Some? ==> RunMisses(env, Step(env, s, traps[0]).value, traps[1..]))
  }

  /** Whatever a program does in its own window, a run whose calls store off the kernel's words keeps the invariant:
      mappings stay page aligned, in the window, disjoint, and are never taken back. */
  lemma {:induction false} RunLaw(env: Env, s: State, traps: seq<Trap>)
    requires Valid(env, s) && (forall t :: t in traps ==> TrapOk(t)) && RunMisses(env, s, traps)
    ensures Valid(env, Run(env, s, traps)) && s.maps <= Run(env, s, traps).maps
    decreases |traps|
  {
    hide MapsOk, FileOk, DirOk, ContentsOk, LayoutOk, Words, Misses, EffectOk, StoresTo, Passive, UserEq, Table, Put;
    hide Step, Enter, Finished, FrameAt, Stored, Stateful, MmapFits, PageUp, TrapOk, StepMisses, Call;
    if traps != [] {
      var t := traps[0];
      TrapLaw(env, s, t);
      EnterLaw(env, s, t);
      EnterMaps(env, s, t);
      if Step(env, s, t).Some? {
        RunLaw(env, Step(env, s, t).value, traps[1..]);
      }
    }
  }

  /** Pointers into the program's own window miss the kernel's words. */
  lemma WindowMisses(l: Layout, bs: seq<Block>)
    requires LayoutOk(l) && forall b :: b in bs ==> |b.data| < TWO32 && UserRange(b.at, |b.data|)
    ensures AllMiss(l, bs)
  {
    hide LayoutOk, Misses;
    forall b | b in bs ensures Misses(l, b.at, |b.data|) {
      UserRangeMisses(l, b.at, |b.data|);
    }
  }

  // ---------- a run that does not keep it ----------

  const STRAY: Word := 0x81C8_135A

  lemma StrayBytes()
    ensures RandomBytes(0xFF, 4) == EncLe32(STRAY)
  {
    hide Xor;
    Xor0();
    Xor1();
    Xor2();
    Xor3();
    var r := RandomBytes(0xFF, 4);
    assert r[0] == 0x5A && r[1] == 0x13 && r[2] == 0xC8 && r[3] == 0x81;
    assert EncLe32(STRAY) == [0x5A, 0x13, 0xC8, 0x81];
  }

  lemma Xor0()
    ensures Xor(0xA5, 0) == 0xA5 && Xor(0xA5, 0xFF) == 0x5A
  {
  }

  lemma Xor1()
    ensures Xor(0xA5, 73) == 0xEC && Xor(0xEC, 0xFF) == 0x13
  {
  }

  lemma Xor2()
    ensures Xor(0xA5, 146) == 0x37 && Xor(0x37, 0xFF) == 0xC8
  {
  }

  lemma Xor3()
    ensures Xor(0xA5, 219) == 0x7E && Xor(0x7E, 0xFF) == 0x81
  {
  }

  /** getrandom of four bytes at the address of the mapping cursor. */
  predicate FillsCursor(env: Env, f: Frame)
    requires |env.layout.vars| == FRAME
  {
    f.scause == ECALL_U && f.a7 == SYS_GETRANDOM && f.a0 == env.layout.vars[NEXT] && f.a0 != 0 && f.a1 == 4
        && f.a2 == 0xFF
  }

  predicate MapsOnePage(f: Frame) {
    f.scause == ECALL_U && f.a7 == SYS_MMAP && f.a1 == PAGE
  }

  lemma RandomBlocks(env: Env, f: Frame, e: Effect)
    requires LayoutOk(env.layout) && EffectOk(f, e) && FillsCursor(env, f)
    ensures EffectBlocks(f, e) == [Block(env.layout.vars[NEXT], RandomBytes(0xFF, 4))]
    ensures Passive(f.a7) && !Stateful(f.a7)
  {
    hide LayoutOk;
  }

  lemma CursorFilled(env: Env, s: State, t: Trap)
    requires Shape(env, s) && TrapOk(t) && FillsCursor(env, t.frame)
    ensures Step(env, s, t).Some? && WordsOf(env, Step(env, s, t).value)[NEXT] == STRAY
  {
    hide FileOk, DirOk, ContentsOk, Words, Misses, UserEq, Table, Put, Finish, Enter, SetWord, LayoutOk;
    hide EffectOk, StoresTo, Passive;
    hide EffectBlocks, PutAll, RandomBytes;
    EnterLaw(env, s, t);
    var x := Enter(env, s, t);
    RandomBlocks(env, t.frame, t.effect);
    CursorStored(env.layout, x.mem, EffectBlocks(t.frame, t.effect));
    FinishLaw(env.layout, PutAll(x.mem, EffectBlocks(t.frame, t.effect)), t.effect.ret);
  }

  lemma StrayMapped(env: Env, r: State, u: Trap)
    requires Shape(env, r) && WordsOf(env, r)[NEXT] == STRAY && TrapOk(u) && MapsOnePage(u.frame)
    ensures Step(env, r, u).Some? && FrameAt(WordsOf(env, Step(env, r, u).value)).a0 == STRAY
    ensures Step(env, r, u).value.maps == r.maps + [Mapping(STRAY, PAGE)]
  {
    hide FileOk, DirOk, ContentsOk, Words, Misses, UserEq, Table, Put, Finish, Enter, SetWord, LayoutOk;
    hide EffectOk, StoresTo, Passive;
    hide MmapCall;
    EnterLaw(env, r, u);
    EnterMaps(env, r, u);
    StrayCall(env, Enter(env, r, u));
    var o := MmapCall(env, Enter(env, r, u), PAGE);
    FinishLaw(env.layout, o.s.mem, o.ret);
  }

  lemma StrayCall(env: Env, s: State)
    requires Shape(env, s) && WordsOf(env, s)[NEXT] == STRAY
    ensures var o := MmapCall(env, s, PAGE); o.ret == STRAY && o.s.maps == s.maps + [Mapping(STRAY, PAGE)]
  {
    hide Words, Put, SetWord, LayoutOk, ContentsOk;
  }

  /** The store is unchecked, so from any state such a getrandom leaves a cursor that is neither aligned nor in the
      window, and the next mmap hands it out. */
  lemma CursorOverwritten(env: Env, s: State, t: Trap, u: Trap)
    requires Shape(env, s) && TrapOk(t) && TrapOk(u) && FillsCursor(env, t.frame) && MapsOnePage(u.frame)
    ensures Step(env, s, t).Some?
    ensures var r := Step(env, s, t).value;
            && WordsOf(env, r)[NEXT] == STRAY && !Valid(env, r)
            && Step(env, r, u).Some? && FrameAt(WordsOf(env, Step(env, r, u).value)).a0 == STRAY
            && Step(env, r, u).value.maps == r.maps + [Mapping(STRAY, PAGE)] && !InWindow(Mapping(STRAY, PAGE))
  {
    hide FileOk, DirOk, ContentsOk, Words, Misses, UserEq, Table, Put, Finish, Enter, SetWord, LayoutOk;
    hide EffectOk, StoresTo, Passive;
    hide Step, TrapOk;
    CursorFilled(env, s, t);
    StrayMapped(env, Step(env, s, t).value, u);
  }

  lemma CursorStored(l: Layout, mem: seq<byte>, bs: seq<Block>)
    requires LayoutOk(l) && |mem| == TWO32 && bs == [Block(l.vars[NEXT], RandomBytes(0xFF, 4))] && BlocksOk(bs)
    ensures Words(l, PutAll(mem, bs))[NEXT] == STRAY
  {
    hide RandomBytes, Words, EncLe32, Put;
    StrayBytes();
    var m := Put(mem, l.vars[NEXT], EncLe32(STRAY));
    assert PutAll(mem, bs) == m by {
      assert bs[1..] == [];
    }
    assert Words(l, m)[NEXT] == WordAt(l, m, NEXT);
    assert At(l, NEXT) + 4 <= TWO32;
    PutSlice(mem, l.vars[NEXT], EncLe32(STRAY));
    LeHere(m, l.vars[NEXT], 4, STRAY);
  }
}
