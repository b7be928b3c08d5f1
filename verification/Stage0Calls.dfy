/**
  The system calls that keep state, over a memory that holds the kernel's variables as well as
  the user's data. Each call is a function of any state; the laws say what it does when its
  stores miss the kernel's words.
  */
module Stage0Calls {
  import opened Bytes
  import opened Machine
  import opened UserMemory
  import opened KernelWords
  import opened ProcFs
  import opened ProcPaths

  const MMAP_BASE: Word := 0x8100_4000
  const MMAP_LIMIT: Word := USER_END
  const PROC_FD: Word := 3
  const DIR_FD: Word := 4

  const EBADF: Word := 9
  const ENOMEM: Word := 12
  const EFAULT: Word := 14
  const ENOENT: Word := 2

  function Errno(e: Word): Word {
    Wrap(0 - e)
  }

  // ---------- the state ----------

  /** What no call changes: where the words lie, the six files, the size of the kernel image. */
  datatype Env = Env(layout: Layout, contents: seq<seq<byte>>, kernelSize: Word)

  ghost predicate EnvOk(env: Env) {
    LayoutOk(env.layout) && ContentsOk(env.contents)
  }

  datatype Mapping = Mapping(start: Word, len: Word)

  /** Memory, and three histories: the mappings handed out, the bytes read since the file was
      opened, the entries listed since the directory was opened. */
  datatype State = State(mem: seq<byte>, maps: seq<Mapping>, delivered: seq<byte>, listed: seq<Dirent>)

  datatype Out = Out(ret: Word, s: State)

  ghost predicate Shape(env: Env, s: State) {
    EnvOk(env) && |s.mem| == TWO32
  }

  ghost function WordsOf(env: Env, s: State): (w: seq<Word>)
    requires Shape(env, s)
    ensures |w| == WORDS
  {
    Words(env.layout, s.mem)
  }

  predicate InWindow(m: Mapping) {
    && MMAP_BASE <= m.start && m.start + m.len <= MMAP_LIMIT && 0 < m.len
    && m.start % PAGE == 0 && m.len % PAGE == 0
  }

  /** Mappings handed out so far: page aligned, in the window, one after the other. */
  ghost predicate MapsOk(maps: seq<Mapping>, next: Word) {
    && MMAP_BASE <= next <= MMAP_LIMIT && next % PAGE == 0
    && (forall m :: m in maps ==> InWindow(m) && m.start + m.len <= next)
    && (forall i, j :: 0 <= i < j < |maps| ==> maps[i].start + maps[i].len <= maps[j].start)
  }

  /** The open file's cursor is where the bytes read so far end. */
  ghost predicate FileOk(env: Env, w: seq<Word>, delivered: seq<byte>)
    requires EnvOk(env) && |w| == WORDS
  {
    && w[FILE] < 7 && (w[OPEN] != 0 ==> w[FILE] != 0)
    && w[OFFSET] <= |env.contents[w[FILE]]| && delivered == env.contents[w[FILE]][..w[OFFSET]]
  }

  ghost predicate DirOk(w: seq<Word>, listed: seq<Dirent>)
    requires |w| == WORDS
  {
    w[DIR_OFFSET] <= 9 && listed == Table()[..w[DIR_OFFSET]]
  }

  ghost predicate Valid(env: Env, s: State) {
    && Shape(env, s)
    && MapsOk(s.maps, WordsOf(env, s)[NEXT])
    && FileOk(env, WordsOf(env, s), s.delivered)
    && DirOk(WordsOf(env, s), s.listed)
  }

  // ---------- anonymous mappings ----------

  ghost function MmapCall(env: Env, s: State, length: Word): (o: Out)
    requires Shape(env, s)
    ensures |o.s.mem| == TWO32
  {
    var next, len := WordsOf(env, s)[NEXT], PageUp(length);
    if len != 0 && len <= Wrap(MMAP_LIMIT - next) then
      Out(next, s.(mem := Put(SetWord(env.layout, s.mem, NEXT, Wrap(next + len)), next, Zeros(len)),
                   maps := s.maps + [Mapping(next, len)]))
    else Out(Errno(ENOMEM), s)
  }

  predicate MmapFits(next: Word, len: Word) {
    0 < len <= LAST_PAGE && PageUp(len) <= MMAP_LIMIT - next
  }

  lemma MapsMore(maps: seq<Mapping>, next: Word, len: Word)
    requires MapsOk(maps, next) && 0 < len && len % PAGE == 0 && len <= MMAP_LIMIT - next
    ensures MapsOk(maps + [Mapping(next, len)], next + len)
  {
  }

  /** mmap bumps the cursor and clears the pages, for every 32-bit length; its own store cannot hit the kernel. */
  lemma MmapLaw(env: Env, s: State, length: Word)
    requires Valid(env, s)
    ensures var o, w, len := MmapCall(env, s, length), WordsOf(env, s), PageUp(length);
            && Valid(env, o.s) && o.s.delivered == s.delivered && o.s.listed == s.listed
            && (MmapFits(w[NEXT], length) ==>
                  && length <= len && o.ret == w[NEXT] && o.s.maps == s.maps + [Mapping(o.ret, len)]
                  && WordsOf(env, o.s) == w[NEXT := o.ret + len]
                  && o.s.mem[o.ret..o.ret + len] == Zeros(len)
                  && UserEq(env.layout, o.s.mem, Put(s.mem, o.ret, Zeros(len))))
            && (!MmapFits(w[NEXT], length) ==> o == Out(Errno(ENOMEM), s))
  {
    hide Put, Words, SetWord, LayoutOk, ContentsOk, Table, UserEq, MapsOk, FileOk, DirOk, PageUp, Wrap, MmapFits, Zeros;
    var w, len := WordsOf(env, s), PageUp(length);
    CursorRange(s.maps, w[NEXT], length);
    if MmapFits(w[NEXT], length) {
      MmapMemory(env.layout, s.mem, w[NEXT], len);
      MapsMore(s.maps, w[NEXT], len);
      SameFile(env, w, w[NEXT := w[NEXT] + len], s.delivered);
      SameDir(w, w[NEXT := w[NEXT] + len], s.listed);
    }
  }

  /** With the cursor in the window, the kernel's test is the one on unbounded integers. */
  lemma CursorRange(maps: seq<Mapping>, next: Word, length: Word)
    requires MapsOk(maps, next)
    ensures MMAP_BASE <= next <= MMAP_LIMIT
    ensures PageUp(length) != 0 && PageUp(length) <= Wrap(MMAP_LIMIT - next) <==> MmapFits(next, length)
    ensures MmapFits(next, length) ==>
              && 0 < length <= PageUp(length) <= MMAP_LIMIT - next && PageUp(length) % PAGE == 0
              && Wrap(next + PageUp(length)) == next + PageUp(length)
  {
    hide PageUp;
  }

  lemma MmapMemory(l: Layout, mem: seq<byte>, next: Word, len: Word)
    requires |mem| == TWO32 && LayoutOk(l) && MMAP_BASE <= next && next + len <= MMAP_LIMIT
    ensures var r := Put(SetWord(l, mem, NEXT, next + len), next, Zeros(len));
            && Words(l, r) == Words(l, mem)[NEXT := next + len] && r[next..next + len] == Zeros(len)
            && UserEq(l, r, Put(mem, next, Zeros(len)))
  {
    hide Put, Words, SetWord, LayoutOk, Misses, InKernel, UserEq;
    var m := SetWord(l, mem, NEXT, next + len);
    SetWordWords(l, mem, NEXT, next + len);
    UserRangeMisses(l, next, len);
    PutMisses(l, m, next, Zeros(len));
    PutSlice(m, next, Zeros(len));
    PutUserEq(l, m, mem, next, Zeros(len));
  }

  // ---------- open and close ----------

  ghost function SetFile(env: Env, s: State, open: Word, file: Word): (r: State)
    requires Shape(env, s)
    ensures |r.mem| == TWO32
  {
    var l := env.layout;
    s.(mem := SetWord(l, SetWord(l, SetWord(l, s.mem, OPEN, open), OFFSET, 0), FILE, file), delivered := [])
  }

  ghost function SetDir(env: Env, s: State, open: Word): (r: State)
    requires Shape(env, s)
    ensures |r.mem| == TWO32
  {
    s.(mem := SetWord(env.layout, SetWord(env.layout, s.mem, DIR_OPEN, open), DIR_OFFSET, 0), listed := [])
  }

  ghost function OpenCall(env: Env, s: State, path: Word): (o: Out)
    requires Shape(env, s)
    ensures |o.s.mem| == TWO32
  {
    var t := OpenTarget(s.mem, path);
    if t.AFile? then Out(PROC_FD, SetFile(env, s, 1, t.id))
    else if t.ADir? then Out(DIR_FD, SetDir(env, s, 1))
    else Out(Errno(ENOENT), s)
  }

  ghost function CloseCall(env: Env, s: State, fd: Word): (o: Out)
    requires Shape(env, s)
    ensures |o.s.mem| == TWO32
  {
    var w := WordsOf(env, s);
    if fd == PROC_FD && w[OPEN] != 0 then Out(0, SetFile(env, s, 0, 0))
    else if fd == DIR_FD && w[DIR_OPEN] != 0 then Out(0, SetDir(env, s, 0))
    else Out(Errno(EBADF), s)
  }

  /** Setting the file words touches nothing else: not the directory, not the mappings, not the user's memory. */
  lemma SetFileLaw(env: Env, s: State, open: Word, file: Word)
    requires Shape(env, s)
    ensures var r := SetFile(env, s, open, file);
            && WordsOf(env, r) == WordsOf(env, s)[OPEN := open][OFFSET := 0][FILE := file]
            && UserEq(env.layout, r.mem, s.mem)
            && (Valid(env, s) && file < 7 && (open != 0 ==> file != 0) ==> Valid(env, r))
  {
    hide Words, SetWord, LayoutOk, InKernel, ContentsOk, Table, UserEq, MapsOk;
    var l := env.layout;
    var m1 := SetWord(l, s.mem, OPEN, open);
    var m2 := SetWord(l, m1, OFFSET, 0);
    SetWordWords(l, s.mem, OPEN, open);
    SetWordWords(l, m1, OFFSET, 0);
    SetWordWords(l, m2, FILE, file);
    UserEqTrans(l, m2, m1, s.mem);
    UserEqTrans(l, SetWord(l, m2, FILE, file), m2, s.mem);
    NoPrefix(env, file);
  }

  lemma NoPrefix(env: Env, file: Word)
    requires ContentsOk(env.contents)
    ensures file < 7 ==> |env.contents| == 7 && env.contents[file][..0] == []
  {
  }

  lemma SetDirLaw(env: Env, s: State, open: Word)
    requires Shape(env, s)
    ensures var r := SetDir(env, s, open);
            && WordsOf(env, r) == WordsOf(env, s)[DIR_OPEN := open][DIR_OFFSET := 0]
            && UserEq(env.layout, r.mem, s.mem)
            && (Valid(env, s) ==> Valid(env, r))
  {
    hide Words, SetWord, LayoutOk, InKernel, ContentsOk, Table, UserEq, MapsOk;
    var l := env.layout;
    var m1 := SetWord(l, s.mem, DIR_OPEN, open);
    SetWordWords(l, s.mem, DIR_OPEN, open);
    SetWordWords(l, m1, DIR_OFFSET, 0);
    UserEqTrans(l, SetWord(l, m1, DIR_OFFSET, 0), m1, s.mem);
    assert Table()[..0] == [];
  }

  /** The closed descriptor's own words and history are reset; the other's, the mappings and the user's memory stay. */
  ghost predicate Closed(env: Env, s: State, fd: Word, o: Out)
    requires Shape(env, s)
  {
    && Shape(env, o.s) && o.s.maps == s.maps && UserEq(env.layout, o.s.mem, s.mem)
    && if FileOpen(WordsOf(env, s), fd) then
         && o.ret == 0 && o.s.delivered == [] && o.s.listed == s.listed
         && WordsOf(env, o.s) == WordsOf(env, s)[OPEN := 0][OFFSET := 0][FILE := 0]
       else if DirOpen(WordsOf(env, s), fd) then
         && o.ret == 0 && o.s.listed == [] && o.s.delivered == s.delivered
         && WordsOf(env, o.s) == WordsOf(env, s)[DIR_OPEN := 0][DIR_OFFSET := 0]
       else o == Out(Errno(EBADF), s)
  }

  lemma CloseLaw(env: Env, s: State, fd: Word)
    requires Shape(env, s)
    ensures Closed(env, s, fd, CloseCall(env, s, fd))
    ensures Valid(env, s) ==> Valid(env, CloseCall(env, s, fd).s)
  {
    hide Words, SetWord, LayoutOk, ContentsOk, Table, UserEq, MapsOk, FileOk, DirOk;
    SetFileLaw(env, s, 0, 0);
    SetDirLaw(env, s, 0);
    UserEqSelf(env.layout, s.mem);
  }

  /** The boot-time values of the six variables. */
  function Booted(l: Layout, mem: seq<byte>): (r: seq<byte>)
    requires |mem| == TWO32 && LayoutOk(l)
    ensures |r| == TWO32
  {
    var m := SetWord(l, SetWord(l, SetWord(l, mem, OPEN, 0), OFFSET, 0), FILE, 0);
    SetWord(l, SetWord(l, SetWord(l, m, DIR_OPEN, 0), DIR_OFFSET, 0), NEXT, MMAP_BASE)
  }

  lemma BootedLaw(env: Env, mem: seq<byte>)
    requires EnvOk(env) && |mem| == TWO32
    ensures var s := State(Booted(env.layout, mem), [], [], []);
            && Valid(env, s) && UserEq(env.layout, s.mem, mem)
            && WordsOf(env, s)[..FRAME] == [0x8100_4000, 0, 0, 0, 0, 0]
  {
    hide Words, SetWord, LayoutOk, UserEq, ContentsOk, Table;
    var l, s := env.layout, State(mem, [], [], []);
    SetFileLaw(env, s, 0, 0);
    var s1 := SetFile(env, s, 0, 0);
    SetDirLaw(env, s1, 0);
    var s2 := SetDir(env, s1, 0);
    SetWordWords(l, s2.mem, NEXT, MMAP_BASE);
    UserEqTrans(l, s2.mem, s1.mem, mem);
    UserEqTrans(l, Booted(l, mem), s2.mem, mem);
    NoPrefix(env, 0);
    assert Table()[..0] == [];
  }

  // ---------- read ----------

  predicate FileOpen(w: seq<Word>, fd: Word)
    requires |w| == WORDS
  {
    fd == PROC_FD && w[OPEN] != 0
  }

  predicate DirOpen(w: seq<Word>, fd: Word)
    requires |w| == WORDS
  {
    fd == DIR_FD && w[DIR_OPEN] != 0
  }

  /** `linux_proc_file_content`. */
  function Content(env: Env, file: Word): (c: seq<byte>)
    requires ContentsOk(env.contents)
    ensures |c| < 0x8000_0000
  {
    if file < 7 then env.contents[file] else []
  }

  /** The bytes one `read` hands out: as many as asked for and left. */
  function ReadData(env: Env, w: seq<Word>, count: Word): (d: seq<byte>)
    requires ContentsOk(env.contents) && |w| == WORDS
    ensures |d| <= count
  {
    var content, from := Content(env, w[FILE]), w[OFFSET];
    if from >= |content| then [] else content[from..from + Min(count, |content| - from)]
  }

  ghost function ReadCall(env: Env, s: State, fd: Word, buf: Word, count: Word): (o: Out)
    requires Shape(env, s)
    ensures |o.s.mem| == TWO32
  {
    var l, w := env.layout, WordsOf(env, s);
    if FileOpen(w, fd) && buf != 0 then
      var data := ReadData(env, w, count);
      var m := Put(s.mem, buf, data);
      Out(|data|, s.(mem := SetWord(l, m, OFFSET, Wrap(WordAt(l, m, OFFSET) + |data|)),
                     delivered := s.delivered + data))
    else Out(Errno(EBADF), s)
  }

  /** read continues where the last one ended, and reaches the end of the file exactly when less than asked for is
      left. */
  lemma ReadLaw(env: Env, s: State, fd: Word, buf: Word, count: Word)
    requires Valid(env, s)
    requires var w := WordsOf(env, s);
             FileOpen(w, fd) && buf != 0 ==> Misses(env.layout, buf, |ReadData(env, w, count)|)
    ensures var o, w, data := ReadCall(env, s, fd, buf, count), WordsOf(env, s), ReadData(env, WordsOf(env, s), count);
            && Valid(env, o.s) && o.s.maps == s.maps && o.s.listed == s.listed
            && (FileOpen(w, fd) && buf != 0 ==>
                  && o.ret == |data| == Min(count, |env.contents[w[FILE]]| - w[OFFSET])
                  && o.s.delivered == s.delivered + data
                  && o.s.delivered == env.contents[w[FILE]][..w[OFFSET] + o.ret]
                  && WordsOf(env, o.s) == w[OFFSET := w[OFFSET] + o.ret]
                  && UserEq(env.layout, o.s.mem, Put(s.mem, buf, data)))
            && (!(FileOpen(w, fd) && buf != 0) ==> o == Out(Errno(EBADF), s))
  {
    hide Put, Words, SetWord, LayoutOk, Misses, InKernel, Table, UserEq, MapsOk, ReadData, FileOk, ContentsOk;
    var l, w := env.layout, WordsOf(env, s);
    if FileOpen(w, fd) && buf != 0 {
      var data := ReadData(env, w, count);
      ReadBytes(env, w, s.delivered, count);
      CopyThenAdd(l, s.mem, buf, data, OFFSET, |data|);
    }
  }

  lemma ReadBytes(env: Env, w: seq<Word>, delivered: seq<byte>, count: Word)
    requires EnvOk(env) && |w| == WORDS && FileOk(env, w, delivered)
    ensures var data := ReadData(env, w, count);
            && |env.contents| == 7 && w[FILE] < 7 && w[OFFSET] + |data| <= |env.contents[w[FILE]]| < TWO32
            && |data| == Min(count, |env.contents[w[FILE]]| - w[OFFSET])
            && delivered + data == env.contents[w[FILE]][..w[OFFSET] + |data|]
            && FileOk(env, w[OFFSET := w[OFFSET] + |data|], delivered + data)
  {
    var c, data := env.contents[w[FILE]], ReadData(env, w, count);
    assert c[..w[OFFSET]] + data == c[..w[OFFSET] + |data|];
  }

  /** A copy to the user that misses the kernel's words, and then an addition to one of them. */
  lemma CopyThenAdd(l: Layout, mem: seq<byte>, buf: Word, data: seq<byte>, k: nat, n: Word)
    requires |mem| == TWO32 && LayoutOk(l) && k < WORDS && |data| <= TWO32 && Misses(l, buf, |data|)
    ensures var m := Put(mem, buf, data);
            var r := SetWord(l, m, k, Wrap(WordAt(l, m, k) + n));
            Words(l, r) == Words(l, mem)[k := Wrap(Words(l, mem)[k] + n)] && UserEq(l, r, m)
  {
    hide Put, SetWord, Misses, InKernel, UserEq;
    var m := Put(mem, buf, data);
    PutMisses(l, mem, buf, data);
    assert WordAt(l, m, k) == Words(l, m)[k];
    SetWordWords(l, m, k, Wrap(Words(l, mem)[k] + n));
  }

  // ---------- getdents64 ----------

  /** One turn of the directory loop: store the record, then advance the cursor word as memory now has it. */
  ghost function ListOne(env: Env, s: State, at: Word, d: Dirent): (r: State)
    requires Shape(env, s) && Plain(d)
    ensures |r.mem| == TWO32
  {
    var l, m := env.layout, Put(s.mem, at, Record(d));
    s.(mem := SetWord(l, m, DIR_OFFSET, Wrap(WordAt(l, m, DIR_OFFSET) + 1)), listed := s.listed + [d])
  }

  ghost function Dents(env: Env, s: State, buf: Word, count: Word, total: nat): (o: Out)
    requires Shape(env, s) && total <= count
    ensures |o.s.mem| == TWO32
    decreases count - total
  {
    var w := WordsOf(env, s);
    if w[DIR_OFFSET] >= 9 then Out(total, s)
    else
      var d := Table()[w[DIR_OFFSET]];
      if RecLen(d.name) > count - total then Out(total, s)
      else
        Dents(env, ListOne(env, s, Wrap(buf + total), d), buf, count, total + RecLen(d.name))
  }

  ghost function DentsCall(env: Env, s: State, fd: Word, buf: Word, count: Word): (o: Out)
    requires Shape(env, s)
    ensures |o.s.mem| == TWO32
  {
    if DirOpen(WordsOf(env, s), fd) && buf != 0 then Dents(env, s, buf, count, 0)
    else Out(Errno(if buf == 0 then EFAULT else EBADF), s)
  }

  /** The entry a listing from entry `o` into `room` bytes stops at. */
  function NextEntry(o: nat, room: nat): (n: nat)
    requires o <= 9
    ensures o <= n <= 9 && |Records(o, n)| <= room
    ensures n < 9 ==> |Records(o, n + 1)| > room
    ensures n == o <==> o == 9 || room < RecLen(Table()[o].name)
    decreases 9 - o
  {
    if o == 9 || RecLen(Table()[o].name) > room then
      OneRecord(o);
      o
    else
      var n := NextEntry(o + 1, room - RecLen(Table()[o].name));
      RecordsFront(o, n);
      if n < 9 then RecordsFront(o, n + 1); n else n
  }

  lemma OneRecord(o: nat)
    requires o <= 9
    ensures Records(o, o) == []
    ensures o < 9 ==> Records(o, o + 1) == Record(Table()[o])
  {
    hide Record, Table;
    if o < 9 {
      RecordsFront(o, o + 1);
    }
  }

  /** What one listing stores. */
  ghost function Listing(env: Env, s: State, room: nat): seq<byte>
    requires Shape(env, s) && WordsOf(env, s)[DIR_OFFSET] <= 9
  {
    Records(WordsOf(env, s)[DIR_OFFSET], NextEntry(WordsOf(env, s)[DIR_OFFSET], room))
  }

  /** From `s` to `r` the cursor moves to entry `n`, `data` is stored at `at`, and the rest stays. */
  ghost predicate Listed(env: Env, s: State, r: State, n: Word, at: Word, data: seq<byte>)
    requires Shape(env, s) && |data| <= TWO32
  {
    && Valid(env, r) && r.maps == s.maps && r.delivered == s.delivered
    && WordsOf(env, r) == WordsOf(env, s)[DIR_OFFSET := n]
    && UserEq(env.layout, r.mem, Put(s.mem, at, data))
  }

  lemma ListedTwice(env: Env, s: State, r: State, q: State, n: Word, m: Word, at: Word, d: seq<byte>, e: seq<byte>)
    requires Shape(env, s) && Shape(env, r) && |d| + |e| < TWO32
    requires Listed(env, s, r, n, at, d) && Listed(env, r, q, m, Wrap(at + |d|), e)
    ensures Listed(env, s, q, m, at, d + e)
  {
    hide Put, Words, LayoutOk, UserEq, MapsOk, FileOk, DirOk, ContentsOk;
    TwoCopies(env.layout, s.mem, r.mem, q.mem, at, d, e);
  }

  lemma ListedCursor(env: Env, s: State, r: State, n: Word, at: Word, data: seq<byte>)
    requires Shape(env, s) && |data| <= TWO32 && Listed(env, s, r, n, at, data)
    ensures Valid(env, r) && WordsOf(env, r)[DIR_OFFSET] == n
  {
    hide Put, Words, LayoutOk, UserEq, MapsOk, FileOk, DirOk, ContentsOk;
  }

  lemma ListedNone(env: Env, s: State, at: Word)
    requires Valid(env, s)
    ensures Listed(env, s, s, WordsOf(env, s)[DIR_OFFSET], at, [])
  {
    hide Put, Words, LayoutOk, UserEq, MapsOk, FileOk, DirOk, ContentsOk;
    PutNothing(s.mem, at);
    UserEqSelf(env.layout, s.mem);
  }

  lemma ListOneLaw(env: Env, s: State, at: Word)
    requires Valid(env, s) && WordsOf(env, s)[DIR_OFFSET] < 9
    requires Misses(env.layout, at, |Record(Table()[WordsOf(env, s)[DIR_OFFSET]])|)
    ensures var w := WordsOf(env, s);
            var d := Table()[w[DIR_OFFSET]];
            var r := ListOne(env, s, at, d);
            Listed(env, s, r, w[DIR_OFFSET] + 1, at, Record(d))
  {
    hide Put, Words, SetWord, LayoutOk, Misses, InKernel, Table, UserEq, MapsOk, FileOk, Record, RecLen;
    var i := WordsOf(env, s)[DIR_OFFSET];
    CopyThenAdd(env.layout, s.mem, at, Record(Table()[i]), DIR_OFFSET, 1);
    assert Table()[..i] + [Table()[i]] == Table()[..i + 1];
    SameFile(env, WordsOf(env, s), WordsOf(env, ListOne(env, s, at, Table()[i])), s.delivered);
  }

  lemma SameFile(env: Env, w: seq<Word>, v: seq<Word>, delivered: seq<byte>)
    requires EnvOk(env) && |w| == |v| == WORDS && FileOk(env, w, delivered)
    requires v[FILE] == w[FILE] && v[OPEN] == w[OPEN] && v[OFFSET] == w[OFFSET]
    ensures FileOk(env, v, delivered)
  {
  }

  lemma SameDir(w: seq<Word>, v: seq<Word>, listed: seq<Dirent>)
    requires |w| == |v| == WORDS && DirOk(w, listed) && v[DIR_OFFSET] == w[DIR_OFFSET]
    ensures DirOk(v, listed)
  {
  }

  lemma MissesParts(l: Layout, a: Word, n: nat, m: nat)
    requires LayoutOk(l) && n + m < TWO32 && Misses(l, a, n + m)
    ensures Misses(l, a, n) && Misses(l, Wrap(a + n), m)
  {
    hide InKernel, LayoutOk;
    forall p: Word | InKernel(l, p) ensures Off(p, Wrap(a + n)) >= m {
      OffShift(a, n, p);
    }
  }

  lemma NextEntryStep(o: nat, room: nat)
    requires o <= 9
    ensures o < 9 && RecLen(Table()[o].name) <= room ==>
              var d := Table()[o];
              var n := NextEntry(o, room);
              && n == NextEntry(o + 1, room - RecLen(d.name)) && Records(o, n) == Record(d) + Records(o + 1, n)
    ensures !(o < 9 && RecLen(Table()[o].name) <= room) ==> NextEntry(o, room) == o && Records(o, o) == []
  {
    hide Record, Table, RecLen;
    if o < 9 && RecLen(Table()[o].name) <= room {
      RecordsFront(o, NextEntry(o, room));
    }
  }

  /** The loop lists whole records, in order, up to the entry that no longer fits. */
  lemma {:induction false} DentsLaw(env: Env, s: State, buf: Word, count: Word, total: nat)
    requires Valid(env, s) && total <= count
    requires Misses(env.layout, Wrap(buf + total), |Listing(env, s, count - total)|)
    ensures var o, w := Dents(env, s, buf, count, total), WordsOf(env, s);
            var n, data := NextEntry(w[DIR_OFFSET], count - total), Listing(env, s, count - total);
            o.ret == total + |data| && Listed(env, s, o.s, n, Wrap(buf + total), data)
    decreases count - total
  {
    hide Put, Words, SetWord, LayoutOk, Misses, InKernel, Table, UserEq, MapsOk, FileOk, Records, Record, RecLen;
    hide NextEntry, ContentsOk, ListOne, Listed, DirOk;
    var l, w, i := env.layout, WordsOf(env, s), WordsOf(env, s)[DIR_OFFSET];
    NextEntryStep(i, count - total);
    if i < 9 && RecLen(Table()[i].name) <= count - total {
      var d, at := Table()[i], Wrap(buf + total);
      var n := NextEntry(i, count - total);
      var rest := Records(i + 1, n);
      var s1 := ListOne(env, s, at, d);
      MissesParts(l, at, |Record(d)|, |rest|);
      ListOneLaw(env, s, at);
      ListedCursor(env, s, s1, i + 1, at, Record(d));
      WrapTwice(buf, total, |Record(d)|);
      DentsLaw(env, s1, buf, count, total + RecLen(d.name));
      ListedTwice(env, s, s1, Dents(env, s, buf, count, total).s, i + 1, n, at, Record(d), rest);
    } else {
      ListedNone(env, s, Wrap(buf + total));
    }
  }

  lemma WrapTwice(buf: Word, total: nat, n: nat)
    ensures Wrap(Wrap(buf + total) + n) == Wrap(buf + (total + n))
  {
  }

  lemma UserEqSelf(l: Layout, mem: seq<byte>)
    requires |mem| == TWO32 && LayoutOk(l)
    ensures UserEq(l, mem, mem)
  {
  }

  lemma TwoCopies(l: Layout, a: seq<byte>, b: seq<byte>, c: seq<byte>, at: Word, d: seq<byte>, e: seq<byte>)
    requires |a| == |b| == |c| == TWO32 && LayoutOk(l) && |d| + |e| < TWO32
    requires UserEq(l, b, Put(a, at, d)) && UserEq(l, c, Put(b, Wrap(at + |d|), e))
    ensures UserEq(l, c, Put(a, at, d + e))
  {
    hide Put, LayoutOk, InKernel, UserEq;
    PutUserEq(l, b, Put(a, at, d), Wrap(at + |d|), e);
    PutBehind(a, at, d, e);
    UserEqTrans(l, c, Put(b, Wrap(at + |d|), e), Put(a, at, d + e));
  }

  /** getdents64 hands out whole records that decode to the next entries; it returns 0 exactly at the end
      of the directory or when the next record is longer than the buffer. */
  lemma GetdentsLaw(env: Env, s: State, fd: Word, buf: Word, count: Word)
    requires Valid(env, s)
    requires DirOpen(WordsOf(env, s), fd) && buf != 0 ==> Misses(env.layout, buf, |Listing(env, s, count)|)
    ensures var o, i := DentsCall(env, s, fd, buf, count), WordsOf(env, s)[DIR_OFFSET];
            var n, data := NextEntry(i, count), Listing(env, s, count);
            if DirOpen(WordsOf(env, s), fd) && buf != 0 then
              && Listed(env, s, o.s, n, buf, data) && o.ret == |data| <= count
              && o.s.listed == s.listed + Table()[i..n] && Decode(data) == Some(Table()[i..n])
              && (o.ret == 0 <==> i == 9 || count < RecLen(Table()[i].name))
            else o == Out(Errno(if buf == 0 then EFAULT else EBADF), s)
  {
    hide Put, Words, SetWord, LayoutOk, Misses, InKernel, Table, UserEq, MapsOk, FileOk, Records, Record, RecLen;
    hide NextEntry, ContentsOk, Decode, Dents;
    if DirOpen(WordsOf(env, s), fd) && buf != 0 {
      var i := WordsOf(env, s)[DIR_OFFSET];
      var n := NextEntry(i, count);
      DentsLaw(env, s, buf, count, 0);
      DecodeRecords(i, n);
      NextEntryStep(i, count);
      assert Table()[..i] + Table()[i..n] == Table()[..n];
    }
  }

  /** A run of getdents64 calls on the open directory. */
  ghost function DentsRun(env: Env, s: State, calls: seq<(Word, Word)>): (r: State)
    requires Shape(env, s)
    ensures |r.mem| == TWO32
    decreases |calls|
  {
    if calls == [] then s
    else DentsRun(env, DentsCall(env, s, DIR_FD, calls[0].0, calls[0].1).s, calls[1..])
  }

  /** The longest record, that of `caribeos`, takes 32 bytes. */
  lemma LongestRecord(i: nat)
    requires i < 9
    ensures RecLen(Table()[i].name) <= 32 && RecLen(Table()[5].name) == 32
  {
  }

  /** With room for any record in each call, every call before the end moves on, so nine list the directory. */
  lemma {:induction false} ListsAll(env: Env, s: State, calls: seq<(Word, Word)>)
    requires Valid(env, s) && WordsOf(env, s)[DIR_OPEN] != 0
    requires forall c :: c in calls ==> c.0 != 0 && c.1 >= 32 && Misses(env.layout, c.0, c.1)
    ensures var r := DentsRun(env, s, calls);
            && Valid(env, r) && WordsOf(env, r)[DIR_OFFSET] >= Min(9, WordsOf(env, s)[DIR_OFFSET] + |calls|)
            && (WordsOf(env, s)[DIR_OFFSET] + |calls| >= 9 ==> r.listed == Table())
    decreases |calls|
  {
    hide Put, Words, SetWord, LayoutOk, Misses, InKernel, Table, UserEq, MapsOk, FileOk, Records, Record, RecLen;
    hide NextEntry, ContentsOk, Decode, DentsCall;
    assert Table()[..9] == Table();
    if calls != [] {
      var buf, count := calls[0].0, calls[0].1;
      var i := WordsOf(env, s)[DIR_OFFSET];
      assert calls[0] in calls;
      MissesShorter(env.layout, buf, |Listing(env, s, count)|, count);
      GetdentsLaw(env, s, DIR_FD, buf, count);
      LongestRecord(if i < 9 then i else 0);
      var s1 := DentsCall(env, s, DIR_FD, buf, count).s;
      assert WordsOf(env, s1) == WordsOf(env, s)[DIR_OFFSET := NextEntry(i, count)];
      ListsAll(env, s1, calls[1..]);
    }
  }

  lemma MissesShorter(l: Layout, a: Word, n: nat, m: nat)
    requires LayoutOk(l) && n <= m && Misses(l, a, m)
    ensures Misses(l, a, n)
  {
    hide InKernel, LayoutOk;
  }

  // ---------- metadata ----------

  /** The record fstat64 stores, if any. */
  function FstatMeta(env: Env, w: seq<Word>, fd: Word): Option<Meta>
    requires ContentsOk(env.contents) && |w| == WORDS
  {
    if FileOpen(w, fd) then Some(Meta(REG_MODE, |Content(env, w[FILE])|, FileIno(w[FILE])))
    else if DirOpen(w, fd) then Some(Meta(DIR_MODE, 0, 5))
    else None
  }

  ghost function FstatCall(env: Env, s: State, fd: Word, buf: Word): (o: Out)
    requires Shape(env, s)
    ensures |o.s.mem| == TWO32
  {
    StatCall(s, FstatMeta(env, WordsOf(env, s), fd), buf, EBADF)
  }

  ghost function FstatAtCall(env: Env, s: State, path: Word, buf: Word): (o: Out)
    requires Shape(env, s)
    ensures |o.s.mem| == TWO32
  {
    StatCall(s, PathMetaOf(env, s, path), buf, ENOENT)
  }

  ghost function PathMetaOf(env: Env, s: State, path: Word): Option<Meta>
    requires Shape(env, s)
  {
    if path == 0 then None else PathMeta(s.mem, path, env.contents, env.kernelSize)
  }

  ghost function StatCall(s: State, meta: Option<Meta>, buf: Word, err: Word): (o: Out)
    requires |s.mem| == TWO32
    ensures |o.s.mem| == TWO32
  {
    if buf == 0 then Out(Errno(EFAULT), s)
    else if meta.None? then Out(Errno(err), s)
    else Out(0, s.(mem := Put(s.mem, buf, StatOf(meta.value))))
  }

  /** A stat record stored off the kernel's words changes no word. */
  lemma StatLaw(env: Env, s: State, meta: Option<Meta>, buf: Word, err: Word)
    requires Valid(env, s) && (buf != 0 && meta.Some? ==> Misses(env.layout, buf, STAT_SIZE))
    ensures var o := StatCall(s, meta, buf, err);
            && Valid(env, o.s) && WordsOf(env, o.s) == WordsOf(env, s)
            && o.s.maps == s.maps && o.s.delivered == s.delivered && o.s.listed == s.listed
  {
    hide Put, Words, LayoutOk, Misses, InKernel, Table, MapsOk, FileOk, StatBytes, ContentsOk;
    if buf != 0 && meta.Some? {
      PutMisses(env.layout, s.mem, buf, StatOf(meta.value));
    }
  }

  /** fstat64 on a file or directory just opened reports what fstatat64 reports for its path. */
  lemma FstatOfOpened(env: Env, s: State, path: Word)
    requires Shape(env, s) && !OpenTarget(s.mem, path).Nothing?
    ensures FstatMeta(env, WordsOf(env, OpenCall(env, s, path).s), OpenCall(env, s, path).ret)
         == PathMetaOf(env, s, path)
  {
    hide Words, SetWord, LayoutOk, StringIs, FilePath, OpenTarget, PathMeta;
    OpenMeta(s.mem, path, env.contents, env.kernelSize);
    TargetPath(s.mem, path);
    if OpenTarget(s.mem, path).AFile? {
      SetFileLaw(env, s, 1, OpenTarget(s.mem, path).id);
    } else {
      SetDirLaw(env, s, 1);
    }
  }

  lemma TargetPath(mem: seq<byte>, path: Word)
    requires |mem| == TWO32 && !OpenTarget(mem, path).Nothing?
    ensures path != 0
  {
    hide StringIs, FilePath;
  }
}
