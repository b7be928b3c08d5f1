/**
  Programs against the stage-0 kernel: whole sequences of traps by the numbers of the Linux generic system call
  table, with whatever the program does to its window in between.
  */
module Stage0Session {
  import opened Bytes
  import opened Machine
  import opened UserMemory
  import opened KernelWords
  import opened ProcFs
  import opened ProcPaths
  import opened Stage0Calls
  import opened Stage0Traps

  /** An ecall from user mode with this call number. */
  predicate Asks(f: Frame, number: Word) {
    f.scause == 8 && f.a7 == number
  }

  /** What one trap leaves, in terms of its call: the kernel's variables and the user's memory. */
  lemma StepFrom(env: Env, s: State, t: Trap)
    requires Valid(env, s) && TrapOk(t) && Returns(t.frame) && StepMisses(env, s, t)
    ensures Step(env, s, t).Some?
    ensures var x := Enter(env, s, t);
            var o, r := Call(env, x, t.frame, t.effect), Step(env, s, t).value;
            && Valid(env, x) && Valid(env, o.s) && Valid(env, r) && r.delivered == o.s.delivered
            && FrameAt(WordsOf(env, r)) == t.frame.(a0 := o.ret, sepc := Wrap(t.frame.sepc + 4))
            && WordsOf(env, x)[..FRAME] == WordsOf(env, s)[..FRAME]
            && WordsOf(env, r)[..FRAME] == WordsOf(env, o.s)[..FRAME] && UserEq(env.layout, r.mem, o.s.mem)
  {
    hide MapsOk, FileOk, DirOk, ContentsOk, LayoutOk, Words, Misses, EffectOk, StoresTo, Passive, UserEq, Table, Put;
    hide Finish, Call, Enter, FrameAt, Stored, Stateful, MmapFits, PageUp;
    TrapLaw(env, s, t);
    EnterLaw(env, s, t);
    var x := Enter(env, s, t);
    CallLaw(env, x, t.frame, t.effect);
    var o := Call(env, x, t.frame, t.effect);
    FinishLaw(env.layout, o.s.mem, o.ret);
    FinishedPrefix(WordsOf(env, o.s), o.ret);
  }

  lemma FinishedPrefix(w: seq<Word>, ret: Word)
    requires |w| == WORDS
    ensures Finished(w, ret)[..FRAME] == w[..FRAME]
  {
  }

  lemma StoresNothing(env: Env, x: State, t: Trap)
    requires Shape(env, x) && TrapOk(t) && t.frame.a7 in {56, 57}
    ensures AllMiss(env.layout, Stored(env, x, t.frame, t.effect))
  {
    hide LayoutOk, ContentsOk, EffectOk, Misses;
  }

  // ---------- open ----------

  /** openat(56) of a path of the table gives descriptor 3 and sets the cursor to the start of that file. */
  lemma Opens(env: Env, s: State, t: Trap)
    requires Valid(env, s) && TrapOk(t) && Asks(t.frame, 56)
    requires OpenTarget(Enter(env, s, t).mem, t.frame.a1).AFile?
    ensures Step(env, s, t).Some? && Valid(env, Step(env, s, t).value)
    ensures var r, id := Step(env, s, t).value, OpenTarget(Enter(env, s, t).mem, t.frame.a1).id;
            && FrameAt(WordsOf(env, r)) == t.frame.(a0 := 3, sepc := Wrap(t.frame.sepc + 4))
            && AtFile(env, r, id, 0)
  {
    hide MapsOk, FileOk, DirOk, ContentsOk, LayoutOk, Words, Misses, EffectOk, StoresTo, Passive, UserEq, Table, Put;
    hide Step, Enter, FrameAt, OpenTarget, SetWord;
    var x, id := Enter(env, s, t), OpenTarget(Enter(env, s, t).mem, t.frame.a1).id;
    StoresNothing(env, x, t);
    StepFrom(env, s, t);
    SetFileLaw(env, x, 1, id);
    SamePrefix(WordsOf(env, OpenCall(env, x, t.frame.a1).s), WordsOf(env, Step(env, s, t).value));
  }

  /** File `id` is open and its cursor is at `offset`. */
  ghost predicate AtFile(env: Env, s: State, id: nat, offset: nat)
    requires Shape(env, s)
  {
    var w := WordsOf(env, s);
    w[OPEN] != 0 && w[FILE] == id && w[OFFSET] == offset
  }

  // ---------- read ----------

  /** A read(63) of descriptor 3 into the program's window. */
  predicate Reads(t: Trap) {
    && Asks(t.frame, 63) && t.frame.a0 == 3
    && USER_BASE <= t.frame.a1 && t.frame.a1 + t.frame.a2 <= USER_END
  }

  /** The bytes a reading program finds in its buffer. */
  ghost function Got(env: Env, s: State, t: Trap): seq<byte>
    requires Shape(env, s) && TrapOk(t) && Reads(t)
  {
    var r := Step(env, s, t);
    if r.None? then [] else
      var n := FrameAt(WordsOf(env, r.value)).a0;
      if n <= t.frame.a2 then r.value.mem[t.frame.a1..t.frame.a1 + n] else []
  }

  /** One read in terms of the call's own data: result, cursor and buffer. */
  lemma ReadStep(env: Env, s: State, t: Trap)
    requires Valid(env, s) && TrapOk(t) && Reads(t) && WordsOf(env, s)[OPEN] != 0
    ensures Step(env, s, t).Some? && Valid(env, Step(env, s, t).value)
    ensures var r, w, v := Step(env, s, t).value, WordsOf(env, s), WordsOf(env, Step(env, s, t).value);
            var data := ReadData(env, w, t.frame.a2);
            && FrameAt(v).a0 == |data| && v[OPEN] == w[OPEN] && v[FILE] == w[FILE]
            && v[OFFSET] == w[OFFSET] + |data| && r.mem[t.frame.a1..t.frame.a1 + |data|] == data
  {
    hide MapsOk, DirOk, LayoutOk, Words, Misses, EffectOk, StoresTo, Passive, UserEq, Table, Put, FileOk, ContentsOk;
    hide Step, Enter, FrameAt, ReadCall, ReadData;
    var x, f := Enter(env, s, t), t.frame;
    EnterLaw(env, s, t);
    SamePrefix(WordsOf(env, s), WordsOf(env, x));
    SameData(env, WordsOf(env, s), WordsOf(env, x), f.a2);
    ReadMisses(env, x, t);
    StepFrom(env, s, t);
    ReadLaw(env, x, f.a0, f.a1, f.a2);
    var o, r := ReadCall(env, x, f.a0, f.a1, f.a2), Step(env, s, t).value;
    SamePrefix(WordsOf(env, o.s), WordsOf(env, r));
    SliceStored(env.layout, r.mem, o.s.mem, x.mem, f.a1, ReadData(env, WordsOf(env, x), f.a2));
  }

  lemma SameData(env: Env, w: seq<Word>, v: seq<Word>, count: Word)
    requires ContentsOk(env.contents) && |w| == |v| == WORDS && v[FILE] == w[FILE] && v[OFFSET] == w[OFFSET]
    ensures ReadData(env, v, count) == ReadData(env, w, count)
  {
  }

  /** One read hands out the next bytes of the file and moves the cursor behind them. */
  lemma ReadsNext(env: Env, s: State, t: Trap, id: nat, from: nat)
    requires Valid(env, s) && TrapOk(t) && Reads(t) && AtFile(env, s, id, from)
    ensures id < 7 && from <= |env.contents[id]| && Step(env, s, t).Some? && Valid(env, Step(env, s, t).value)
    ensures var n := Min(t.frame.a2, |env.contents[id]| - from);
            && Got(env, s, t) == env.contents[id][from..from + n] && AtFile(env, Step(env, s, t).value, id, from + n)
            && FrameAt(WordsOf(env, Step(env, s, t).value)).a0 == n
  {
    hide MapsOk, DirOk, LayoutOk, Words, EffectOk, StoresTo, Passive, Table;
    hide Step, FrameAt, ReadData;
    ReadStep(env, s, t);
    DataIs(env, WordsOf(env, s), t.frame.a2);
  }

  lemma DataIs(env: Env, w: seq<Word>, count: Word)
    requires ContentsOk(env.contents) && |w| == WORDS && w[FILE] < 7 && w[OFFSET] <= |env.contents[w[FILE]]|
    ensures var c := env.contents[w[FILE]];
            ReadData(env, w, count) == c[w[OFFSET]..w[OFFSET] + Min(count, |c| - w[OFFSET])]
  {
  }

  lemma ReadMisses(env: Env, x: State, t: Trap)
    requires Valid(env, x) && TrapOk(t) && Reads(t)
    ensures AllMiss(env.layout, Stored(env, x, t.frame, t.effect))
    ensures t.frame.a1 != 0 && Misses(env.layout, t.frame.a1, |ReadData(env, WordsOf(env, x), t.frame.a2)|)
  {
    hide MapsOk, FileOk, DirOk, ContentsOk, LayoutOk, Words, Misses, EffectOk, StoresTo, Passive, Table, ReadData;
    UserRangeMisses(env.layout, t.frame.a1, |ReadData(env, WordsOf(env, x), t.frame.a2)|);
  }

  /** Data stored off the kernel's words is there for the program. */
  lemma SliceStored(l: Layout, a: seq<byte>, b: seq<byte>, mem: seq<byte>, at: Word, data: seq<byte>)
    requires |a| == |b| == |mem| == TWO32 && LayoutOk(l) && USER_BASE <= at && at + |data| <= USER_END
    requires UserEq(l, a, b) && UserEq(l, b, Put(mem, at, data))
    ensures a[at..at + |data|] == data
  {
    hide Put, LayoutOk, InKernel;
    PutSlice(mem, at, data);
    UserRangeMisses(l, at, |data|);
    var x := a[at..at + |data|];
    forall k | 0 <= k < |data| ensures x[k] == data[k] {
      OffInside(at, k);
      assert Put(mem, at, data)[at..at + |data|][k] == Put(mem, at, data)[at + k];
    }
  }

  lemma OffInside(at: Word, k: nat)
    requires at + k < TWO32
    ensures Off(at + k, at) == k
  {
  }

  // ---------- a reading program ----------

  ghost predicate AllRead(ts: seq<Trap>) {
    forall t :: t in ts ==> TrapOk(t) && Reads(t)
  }

  /** What the reads hand out one after the other. */
  ghost function Collected(env: Env, s: State, ts: seq<Trap>): seq<byte>
    requires Shape(env, s) && AllRead(ts)
    decreases |ts|
  {
    if ts == [] then []
    else
      assert ts[0] in ts;
      var r := Step(env, s, ts[0]);
      Got(env, s, ts[0]) + if r.None? then [] else Collected(env, r.value, ts[1..])
  }

  lemma CollectedStep(env: Env, s: State, ts: seq<Trap>)
    requires Shape(env, s) && AllRead(ts)
    ensures ts == [] ==> Collected(env, s, ts) == []
    ensures ts != [] ==> ts[0] in ts && AllRead(ts[1..])
    ensures ts != [] && Step(env, s, ts[0]).Some? ==>
              Collected(env, s, ts) == Got(env, s, ts[0]) + Collected(env, Step(env, s, ts[0]).value, ts[1..])
  {
    hide Step, TrapOk, Reads, Got, LayoutOk, ContentsOk;
  }

  function Asked(ts: seq<Trap>): nat {
    if ts == [] then 0 else ts[0].frame.a2 + Asked(ts[1..])
  }

  /** However a program cuts its reads and whatever it does to its window between them, together they hand out the
      file from the cursor on: as many bytes as were asked for, or all that are left. */
  lemma {:induction false} ReadsAll(env: Env, s: State, ts: seq<Trap>, id: nat, from: nat)
    requires Valid(env, s) && AllRead(ts) && AtFile(env, s, id, from)
    ensures id < 7 && from <= |env.contents[id]|
    ensures Collected(env, s, ts) == env.contents[id][from..from + Min(Asked(ts), |env.contents[id]| - from)]
    decreases |ts|
  {
    hide Valid, Shape, Step, TrapOk, Reads, Got, AtFile, Collected;
    Cursor(env, s, id, from);
    CollectedStep(env, s, ts);
    if ts != [] {
      var t := ts[0];
      assert t in ts;
      ReadsNext(env, s, t, id, from);
      var c, n := env.contents[id], Min(t.frame.a2, |env.contents[id]| - from);
      ReadsAll(env, Step(env, s, t).value, ts[1..], id, from + n);
      Joined(c, from, n, Min(Asked(ts[1..]), |c| - from - n));
    }
  }

  lemma Joined(c: seq<byte>, from: nat, n: nat, m: nat)
    requires from + n + m <= |c|
    ensures c[from..from + n] + c[from + n..from + n + m] == c[from..from + n + m]
  {
  }

  lemma Cursor(env: Env, s: State, id: nat, from: nat)
    requires Valid(env, s) && AtFile(env, s, id, from)
    ensures Shape(env, s) && |env.contents| == 7 && id < 7 && from <= |env.contents[id]|
  {
    hide MapsOk, DirOk, LayoutOk, Words, Table;
  }

  /** Open a file by its path and read it: the program gets the text of that name, from the start. */
  lemma OpenAndRead(env: Env, s: State, open: Trap, ts: seq<Trap>, texts: Texts)
    requires Valid(env, s) && env.contents == InOrder(texts) && TrapOk(open) && Asks(open.frame, 56)
    requires AllRead(ts) && OpenTarget(Enter(env, s, open).mem, open.frame.a1).AFile?
    ensures Step(env, s, open).Some? && Valid(env, Step(env, s, open).value)
    ensures var got, mem, path := Collected(env, Step(env, s, open).value, ts), Enter(env, s, open).mem, open.frame.a1;
            && (StringIs(mem, path, Lit("/proc/version")) ==> got == Prefix(texts.version, Asked(ts)))
            && (StringIs(mem, path, Lit("/proc/cpuinfo")) ==> got == Prefix(texts.cpuinfo, Asked(ts)))
            && (StringIs(mem, path, Lit("/proc/meminfo")) ==> got == Prefix(texts.meminfo, Asked(ts)))
            && (StringIs(mem, path, Lit("/proc/caribeos")) ==> got == Prefix(texts.caribeos, Asked(ts)))
            && (StringIs(mem, path, Lit("/proc/uptime")) ==> got == Prefix(texts.uptime, Asked(ts)))
            && (StringIs(mem, path, Lit("/proc/stat")) ==> got == Prefix(texts.stat, Asked(ts)))
  {
    hide Valid, Shape, Step, TrapOk, Reads, Got, AtFile, Enter, OpenTarget, StringIs, Collected, Asked;
    EnvOf(env, s);
    Opens(env, s, open);
    ReadsAll(env, Step(env, s, open).value, ts, OpenTarget(Enter(env, s, open).mem, open.frame.a1).id, 0);
    Named(env, s, open);
    PathText(Enter(env, s, open).mem, open.frame.a1, texts);
  }

  function Prefix(s: seq<byte>, n: nat): seq<byte> {
    s[0..Min(n, |s|)]
  }

  lemma EnvOf(env: Env, s: State)
    requires Valid(env, s)
    ensures Shape(env, s) && ContentsOk(env.contents)
  {
    hide MapsOk, FileOk, DirOk, LayoutOk, Words, Table;
  }

  lemma Named(env: Env, s: State, open: Trap)
    requires Shape(env, s) && TrapOk(open) && OpenTarget(Enter(env, s, open).mem, open.frame.a1).AFile?
    ensures open.frame.a1 != 0
  {
    hide Enter, TrapOk, Shape;
    TargetPath(Enter(env, s, open).mem, open.frame.a1);
  }

  // ---------- close ----------

  /** After close(57) of descriptor 3 a read gives 2^32 - 9, the error EBADF, and leaves the program's memory alone. */
  lemma ReadAfterClose(env: Env, s: State, close: Trap, read: Trap)
    requires Valid(env, s) && TrapOk(close) && TrapOk(read) && Asks(close.frame, 57) && close.frame.a0 == 3
    requires Reads(read)
    ensures Step(env, s, close).Some? && Valid(env, Step(env, s, close).value)
    ensures var r := Step(env, s, close).value;
            && FrameAt(WordsOf(env, r)).a0 == (if WordsOf(env, s)[OPEN] != 0 then 0 else 0xFFFF_FFF7)
            && Step(env, r, read).Some? && FrameAt(WordsOf(env, Step(env, r, read).value)).a0 == 0xFFFF_FFF7
            && UserEq(env.layout, Step(env, r, read).value.mem, Enter(env, r, read).mem)
  {
    hide MapsOk, FileOk, DirOk, LayoutOk, Words, Misses, EffectOk, StoresTo, Passive, UserEq, Table, Put, ContentsOk;
    hide Step, Enter, FrameAt, ReadCall, CloseCall, ReadData;
    var x := Enter(env, s, close);
    StoresNothing(env, x, close);
    StepFrom(env, s, close);
    CloseLaw(env, x, close.frame.a0);
    SamePrefix(WordsOf(env, s), WordsOf(env, x));
    var r := Step(env, s, close).value;
    SamePrefix(WordsOf(env, CloseCall(env, x, 3).s), WordsOf(env, r));
    var y := Enter(env, r, read);
    EnterLaw(env, r, read);
    SamePrefix(WordsOf(env, r), WordsOf(env, y));
    ReadMisses(env, y, read);
    StepFrom(env, r, read);
    ReadLaw(env, y, read.frame.a0, read.frame.a1, read.frame.a2);
  }

  // ---------- the other numbers ----------

  /** The remaining calls by number, on the registers the convention gives them. */
  lemma OtherNumbers(env: Env, s: State, f: Frame, e: Effect)
    requires Shape(env, s) && EffectOk(f, e)
    ensures f.a7 == 222 ==> Call(env, s, f, e) == MmapCall(env, s, f.a1)
    ensures f.a7 == 61 ==> Call(env, s, f, e) == DentsCall(env, s, f.a0, f.a1, f.a2)
    ensures f.a7 == 80 ==> Call(env, s, f, e) == FstatCall(env, s, f.a0, f.a1)
    ensures f.a7 == 79 ==> Call(env, s, f, e) == FstatAtCall(env, s, f.a1, f.a2)
    ensures Errno(ENOENT) == 0xFFFF_FFFE && Errno(ENOMEM) == 0xFFFF_FFF4 && Errno(EFAULT) == 0xFFFF_FFF2
  {
    hide MmapCall, DentsCall, FstatCall, FstatAtCall, OpenCall, CloseCall, ReadCall, LayoutOk, ContentsOk, EffectOk;
  }
}
