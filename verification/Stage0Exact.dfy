/**
  Exactly when a call that stores through its caller's pointers leaves the kernel's words as intended: each byte it
  puts on one of them is the byte already there. The word of a0 is exempt, since the dispatcher sets it last.
  */
module Stage0Exact {
  import opened Bytes
  import opened Machine
  import opened UserMemory
  import opened KernelWords
  import opened ProcFs
  import opened ProcPaths
  import opened Stage0Calls
  import opened Stage0Traps

  ghost predicate KeepsAllBut(l: Layout, a: seq<byte>, b: seq<byte>, k: nat)
    requires LayoutOk(l) && |a| == |b| == TWO32 && k < WORDS
  {
    forall p :: 0 <= p < TWO32 && InKernel(l, p) && !InWord(l, k, p) ==> a[p] == b[p]
  }

  ghost predicate SameWordsBut(v: seq<Word>, w: seq<Word>, j: nat)
    requires |v| == |w| == WORDS
  {
    forall k :: 0 <= k < WORDS && k != j ==> v[k] == w[k]
  }

  lemma KeepsExact(l: Layout, a: seq<byte>, b: seq<byte>, k: nat)
    requires LayoutOk(l) && |a| == |b| == TWO32 && k < WORDS
    ensures KeepsAllBut(l, a, b, k) <==> SameWordsBut(Words(l, a), Words(l, b), k)
  {
    hide InKernel, InWord, Words;
    WordsExactBut(l, a, b, k);
  }

  lemma FinishedExact(v: seq<Word>, w: seq<Word>, ret: Word)
    requires |v| == |w| == WORDS
    ensures Finished(v, ret) == Finished(w, ret) <==> SameWordsBut(v, w, A0)
  {
    var a, b := Finished(v, ret), Finished(w, ret);
    if a == b {
      forall k | 0 <= k < WORDS && k != A0 ensures v[k] == w[k] {
        assert a[k] == b[k];
      }
    }
  }

  function AddTo(w: seq<Word>, k: nat, n: Word): (v: seq<Word>)
    requires |w| == WORDS && k < WORDS
    ensures |v| == WORDS
  {
    w[k := Wrap(w[k] as int + n)]
  }

  /** Adding the same to one word loses nothing. */
  lemma AddExact(v: seq<Word>, w: seq<Word>, k: nat, n: Word, j: nat)
    requires |v| == |w| == WORDS && k < WORDS
    ensures SameWordsBut(AddTo(v, k, n), AddTo(w, k, n), j) <==> SameWordsBut(v, w, j)
  {
    var a, b := AddTo(v, k, n), AddTo(w, k, n);
    if SameWordsBut(a, b, j) {
      forall i | 0 <= i < WORDS && i != j ensures v[i] == w[i] {
        assert a[i] == b[i];
      }
    }
  }

  // ---------- the directory loop ----------

  /** Every turn of the loop puts on the kernel's words only what is there at that turn. */
  ghost predicate DentsClean(env: Env, s: State, buf: Word, count: Word, total: nat)
    requires Shape(env, s) && total <= count
    decreases count - total
  {
    TurnDue(env, s, count - total) ==>
      && KeepsAllBut(env.layout, Put(s.mem, Wrap(buf + total), Record(Due(env, s))), s.mem, A0)
      && DentsClean(env, ListOne(env, s, Wrap(buf + total), Due(env, s)), buf, count, total + RecLen(Due(env, s).name))
  }

  ghost predicate TurnDue(env: Env, s: State, room: nat)
    requires Shape(env, s)
  {
    WordsOf(env, s)[DIR_OFFSET] < 9 && RecLen(Table()[WordsOf(env, s)[DIR_OFFSET]].name) <= room
  }

  ghost function Due(env: Env, s: State): Dirent
    requires Shape(env, s) && WordsOf(env, s)[DIR_OFFSET] < 9
  {
    Table()[WordsOf(env, s)[DIR_OFFSET]]
  }

  lemma DentsTurn(env: Env, s: State, buf: Word, count: Word, total: nat)
    requires Shape(env, s) && total <= count
    ensures Dents(env, s, buf, count, total)
         == if TurnDue(env, s, count - total)
            then Dents(env, ListOne(env, s, Wrap(buf + total), Due(env, s)), buf, count,
                       total + RecLen(Due(env, s).name))
            else Out(total, s)
  {
    hide Words, LayoutOk, ContentsOk, ListOne, Table, RecLen;
  }

  /** Bytes before `total`, the cursor's aside, are not stored to again. */
  lemma {:induction false} DentsFrame(env: Env, s: State, buf: Word, count: Word, total: nat, p: Word)
    requires Shape(env, s) && total <= count && Off(p, buf) < total && !InWord(env.layout, DIR_OFFSET, p)
    ensures Dents(env, s, buf, count, total).s.mem[p] == s.mem[p]
    decreases count - total
  {
    hide Words, LayoutOk, ContentsOk, Table, RecLen, ListOne, Dents, Record, InWord;
    DentsTurn(env, s, buf, count, total);
    if TurnDue(env, s, count - total) {
      var d := Due(env, s);
      ListOneFrame(env, s, buf, total, d, p);
      DentsFrame(env, ListOne(env, s, Wrap(buf + total), d), buf, count, total + RecLen(d.name), p);
    }
  }

  lemma ListOneFrame(env: Env, s: State, buf: Word, total: nat, d: Dirent, p: Word)
    requires Shape(env, s) && Plain(d) && total + RecLen(d.name) < TWO32
    requires !(total <= Off(p, buf) < total + RecLen(d.name)) && !InWord(env.layout, DIR_OFFSET, p)
    ensures ListOne(env, s, Wrap(buf + total), d).mem[p] == s.mem[p]
  {
    hide Words, ContentsOk, Record, RecLen, EncLe32, Le32;
    OffShift(buf, total, p);
  }

  /** The words after one turn. */
  lemma ListOneWords(env: Env, s: State, at: Word, d: Dirent)
    requires Shape(env, s) && Plain(d)
    ensures WordsOf(env, ListOne(env, s, at, d)) == AddTo(Words(env.layout, Put(s.mem, at, Record(d))), DIR_OFFSET, 1)
  {
    hide Put, SetWord, LayoutOk, ContentsOk, Record;
    var m := Put(s.mem, at, Record(d));
    assert WordAt(env.layout, m, DIR_OFFSET) == Words(env.layout, m)[DIR_OFFSET];
    SetWordWords(env.layout, m, DIR_OFFSET, Wrap(WordAt(env.layout, m, DIR_OFFSET) + 1));
  }

  lemma {:induction false} DentsPrefix(env: Env, s: State, buf: Word, count: Word, total: nat)
    requires Shape(env, s) && total <= count
    ensures var o := Dents(env, s, buf, count, total);
            && s.listed <= o.s.listed
            && (if TurnDue(env, s, count - total) then s.listed + [Due(env, s)] <= o.s.listed else o.s == s)
    decreases count - total
  {
    hide Words, LayoutOk, ContentsOk, Table, RecLen, ListOne, Dents;
    DentsTurn(env, s, buf, count, total);
    if TurnDue(env, s, count - total) {
      var d := Due(env, s);
      ListOneListed(env, s, Wrap(buf + total), d);
      DentsPrefix(env, ListOne(env, s, Wrap(buf + total), d), buf, count, total + RecLen(d.name));
    }
  }

  lemma ListOneListed(env: Env, s: State, at: Word, d: Dirent)
    requires Shape(env, s) && Plain(d)
    ensures ListOne(env, s, at, d).listed == s.listed + [d]
  {
  }

  /** The cursor stands at entry `n`, the entries up to it are listed, and the other words, a0 aside, are as before. */
  ghost predicate ListedRight(env: Env, s: State, r: State, n: nat)
    requires Shape(env, s) && Shape(env, r) && n <= 9
  {
    && WordsOf(env, s)[DIR_OFFSET] <= n && r.listed == s.listed + Table()[WordsOf(env, s)[DIR_OFFSET]..n]
    && SameWordsBut(WordsOf(env, r), WordsOf(env, s)[DIR_OFFSET := n], A0)
  }

  /** A listing that comes out right has moved its cursor by one in its first turn. */
  lemma CursorForced(env: Env, s: State, buf: Word, count: Word, total: nat)
    requires Shape(env, s) && total <= count && TurnDue(env, s, count - total)
    requires var i := WordsOf(env, s)[DIR_OFFSET];
             ListedRight(env, s, Dents(env, s, buf, count, total).s, NextEntry(i, count - total))
    ensures WordsOf(env, ListOne(env, s, Wrap(buf + total), Due(env, s)))[DIR_OFFSET] == WordsOf(env, s)[DIR_OFFSET] + 1
  {
    hide Words, LayoutOk, ContentsOk, RecLen, ListOne, Dents, Table, Records, NextEntry;
    var i, d := WordsOf(env, s)[DIR_OFFSET], Due(env, s);
    var s1, n := ListOne(env, s, Wrap(buf + total), d), NextEntry(i, count - total);
    var o := Dents(env, s, buf, count, total).s;
    DentsTurn(env, s, buf, count, total);
    ListOneListed(env, s, Wrap(buf + total), d);
    DentsPrefix(env, s1, buf, count, total + RecLen(d.name));
    var rest := Table()[i..n];
    assert rest[0] == d && |rest| == n - i;
    if TurnDue(env, s1, count - total - RecLen(d.name)) {
      var k := |s1.listed|;
      assert (s1.listed + [Due(env, s1)])[k] == o.listed[k];
      assert o.listed[k] == (s.listed + rest)[k] == rest[1] == Table()[i + 1];
      assert Due(env, s1).off == i + 2;
    } else {
      assert |s1.listed| == |s.listed| + 1;
    }
  }

  /** And put on no word anything but what was there. */
  lemma StoreForced(env: Env, s: State, buf: Word, count: Word, total: nat)
    requires Shape(env, s) && total <= count && TurnDue(env, s, count - total)
    requires var i := WordsOf(env, s)[DIR_OFFSET];
             ListedRight(env, s, Dents(env, s, buf, count, total).s, NextEntry(i, count - total))
    ensures KeepsAllBut(env.layout, Put(s.mem, Wrap(buf + total), Record(Due(env, s))), s.mem, A0)
  {
    hide Words, ContentsOk, LayoutOk, RecLen, ListOne, Dents, Table, Records, NextEntry, Record, Put, KeepsAllBut,
         TurnDue, Due;
    DueNow(env, s, count - total);
    var l, d, at := env.layout, Due(env, s), Wrap(buf + total);
    var m, o, i := Put(s.mem, at, Record(d)), Dents(env, s, buf, count, total).s, WordsOf(env, s)[DIR_OFFSET];
    CursorForced(env, s, buf, count, total);
    ListOneWords(env, s, at, d);
    var v, w := Words(l, m), Words(l, s.mem);
    assert v[DIR_OFFSET] == i;
    forall k | 0 <= k < WORDS && k != A0 ensures v[k] == w[k] {
      if k != DIR_OFFSET {
        assert WordsOf(env, o)[k] == WordsOf(env, s)[DIR_OFFSET := NextEntry(i, count - total)][k];
        OtherWord(env, s, buf, count, total, k);
      }
    }
    KeepsExact(l, m, s.mem, A0);
  }

  lemma DueNow(env: Env, s: State, room: nat)
    requires Shape(env, s) && TurnDue(env, s, room)
    ensures WordsOf(env, s)[DIR_OFFSET] < 9 && Plain(Due(env, s))
  {
  }

  lemma OtherWord(env: Env, s: State, buf: Word, count: Word, total: nat, k: nat)
    requires Shape(env, s) && total <= count && TurnDue(env, s, count - total) && k < WORDS && k != DIR_OFFSET
    requires Words(env.layout, Dents(env, s, buf, count, total).s.mem)[k] == Words(env.layout, s.mem)[k]
    ensures Words(env.layout, Put(s.mem, Wrap(buf + total), Record(Due(env, s))))[k] == Words(env.layout, s.mem)[k]
  {
    hide ContentsOk, RecLen, ListOne, Dents, Table, Record, Le32;
    var l, d, at := env.layout, Due(env, s), Wrap(buf + total);
    var m, o, a := Put(s.mem, at, Record(d)), Dents(env, s, buf, count, total).s.mem, At(env.layout, k);
    Le32Exact(o, s.mem, a);
    forall p: Word | InWord(l, k, p) ensures m[p] == s.mem[p] {
      assert !InWord(l, DIR_OFFSET, p);
      OffShift(buf, total, p);
      if total <= Off(p, buf) < total + RecLen(d.name) {
        StoredOnce(env, s, buf, count, total, p);
      }
    }
    assert InWord(l, k, a) && InWord(l, k, a + 1) && InWord(l, k, a + 2) && InWord(l, k, a + 3);
    Le32Exact(m, s.mem, a);
  }

  /** A byte of the first record stays as that record left it. */
  lemma StoredOnce(env: Env, s: State, buf: Word, count: Word, total: nat, p: Word)
    requires Shape(env, s) && total <= count && TurnDue(env, s, count - total) && !InWord(env.layout, DIR_OFFSET, p)
    requires Off(p, buf) < total + RecLen(Due(env, s).name)
    ensures Dents(env, s, buf, count, total).s.mem[p] == Put(s.mem, Wrap(buf + total), Record(Due(env, s)))[p]
  {
    hide Words, ContentsOk, RecLen, Dents, Table, Record, Put, EncLe32;
    var d, at := Due(env, s), Wrap(buf + total);
    DentsTurn(env, s, buf, count, total);
    DentsFrame(env, ListOne(env, s, at, d), buf, count, total + RecLen(d.name), p);
  }

  /** A listing comes out right exactly when every turn puts on the kernel's words only what is there. */
  lemma {:induction false} DentsExact(env: Env, s: State, buf: Word, count: Word, total: nat)
    requires Shape(env, s) && total <= count && WordsOf(env, s)[DIR_OFFSET] <= 9
    ensures var o, i := Dents(env, s, buf, count, total), WordsOf(env, s)[DIR_OFFSET];
            && (DentsClean(env, s, buf, count, total) <==> ListedRight(env, s, o.s, NextEntry(i, count - total)))
            && (DentsClean(env, s, buf, count, total) ==> o.ret == total + |Records(i, NextEntry(i, count - total))|)
    decreases count - total
  {
    hide Words, LayoutOk, ContentsOk, RecLen, ListOne, Dents, Table, Records, NextEntry, Record, Put, KeepsAllBut,
         ListedRight;
    var i, room := WordsOf(env, s)[DIR_OFFSET], count - total;
    DentsTurn(env, s, buf, count, total);
    NextEntryStep(i, room);
    if !TurnDue(env, s, room) {
      ListedNothing(env, s);
    } else {
      var d, at := Due(env, s), Wrap(buf + total);
      var s1 := ListOne(env, s, at, d);
      if KeepsAllBut(env.layout, Put(s.mem, at, Record(d)), s.mem, A0) {
        CleanTurn(env, s, at);
        DentsExact(env, s1, buf, count, total + RecLen(d.name));
        ListedShift(env, s, s1, Dents(env, s, buf, count, total).s, d, NextEntry(i, room));
      } else if ListedRight(env, s, Dents(env, s, buf, count, total).s, NextEntry(i, room)) {
        StoreForced(env, s, buf, count, total);
      }
    }
  }

  lemma CleanTurn(env: Env, s: State, at: Word)
    requires Shape(env, s) && WordsOf(env, s)[DIR_OFFSET] < 9
    requires KeepsAllBut(env.layout, Put(s.mem, at, Record(Due(env, s))), s.mem, A0)
    ensures var s1 := ListOne(env, s, at, Due(env, s));
            && s1.listed == s.listed + [Due(env, s)] && WordsOf(env, s1)[DIR_OFFSET] == WordsOf(env, s)[DIR_OFFSET] + 1
            && SameWordsBut(WordsOf(env, s1), AddTo(WordsOf(env, s), DIR_OFFSET, 1), A0)
  {
    hide Words, LayoutOk, ContentsOk, ListOne, Table, Record, Put, KeepsAllBut;
    var d, m := Due(env, s), Put(s.mem, at, Record(Due(env, s)));
    ListOneListed(env, s, at, d);
    ListOneWords(env, s, at, d);
    KeepsExact(env.layout, m, s.mem, A0);
    AddExact(Words(env.layout, m), WordsOf(env, s), DIR_OFFSET, 1, A0);
  }

  lemma ListedNothing(env: Env, s: State)
    requires Shape(env, s) && WordsOf(env, s)[DIR_OFFSET] <= 9
    ensures ListedRight(env, s, s, WordsOf(env, s)[DIR_OFFSET])
  {
    hide Words, LayoutOk, ContentsOk, Table;
  }

  lemma ListedShift(env: Env, s: State, s1: State, r: State, d: Dirent, n: nat)
    requires Shape(env, s) && Shape(env, s1) && Shape(env, r) && WordsOf(env, s)[DIR_OFFSET] < n <= 9
    requires s1.listed == s.listed + [d] && d == Table()[WordsOf(env, s)[DIR_OFFSET]]
    requires SameWordsBut(WordsOf(env, s1), AddTo(WordsOf(env, s), DIR_OFFSET, 1), A0)
    ensures ListedRight(env, s1, r, n) <==> ListedRight(env, s, r, n)
  {
    hide Words, LayoutOk, ContentsOk, Table;
    var i, w, v := WordsOf(env, s)[DIR_OFFSET], WordsOf(env, s), WordsOf(env, s1);
    assert v[DIR_OFFSET] == i + 1;
    assert s1.listed + Table()[i + 1..n] == s.listed + Table()[i..n];
    var v', w' := v[DIR_OFFSET := n], w[DIR_OFFSET := n];
    forall k | 0 <= k < WORDS && k != A0 ensures v'[k] == w'[k] {
      assert v[k] == AddTo(w, DIR_OFFSET, 1)[k];
    }
  }

  // ---------- traps ----------

  /** The calls that store through pointers of their caller. */
  predicate Storing(f: Frame) {
    && f.scause == ECALL_U
    && (f.a7 in {SYS_READ, SYS_GETDENTS64, SYS_FSTAT64, SYS_FSTATAT64} || (Passive(f.a7) && !Stateful(f.a7)))
  }

  ghost predicate Lists(env: Env, s: State, f: Frame)
    requires Shape(env, s)
  {
    f.a7 == SYS_GETDENTS64 && DirOpen(WordsOf(env, s), f.a0) && f.a1 != 0
  }

  ghost predicate Reads(env: Env, s: State, f: Frame)
    requires Shape(env, s)
  {
    f.a7 == SYS_READ && FileOpen(WordsOf(env, s), f.a0) && f.a1 != 0
  }

  /** Every byte the call puts on a kernel word other than a0 is the byte there; for a listing, at each turn. */
  ghost predicate CleanCall(env: Env, s: State, f: Frame, e: Effect)
    requires Shape(env, s) && EffectOk(f, e)
  {
    if Lists(env, s, f) then DentsClean(env, s, f.a1, f.a2, 0)
    else BlocksOk(Stored(env, s, f, e)) && KeepsAllBut(env.layout, PutAll(s.mem, Stored(env, s, f, e)), s.mem, A0)
  }

  /** The words a call means to leave: a read and a listing move their cursor, the others change none. */
  ghost function Intended(env: Env, s: State, f: Frame): (w: seq<Word>)
    requires Shape(env, s) && WordsOf(env, s)[DIR_OFFSET] <= 9
    ensures |w| == WORDS
  {
    var w := WordsOf(env, s);
    if Reads(env, s, f) then AddTo(w, OFFSET, |ReadData(env, w, f.a2)|)
    else if Lists(env, s, f) then w[DIR_OFFSET := NextEntry(w[DIR_OFFSET], f.a2)]
    else w
  }

  ghost function IntendedList(env: Env, s: State, f: Frame): seq<Dirent>
    requires Shape(env, s) && WordsOf(env, s)[DIR_OFFSET] <= 9
  {
    var i := WordsOf(env, s)[DIR_OFFSET];
    if Lists(env, s, f) then s.listed + Table()[i..NextEntry(i, f.a2)] else s.listed
  }

  /** The call has done as intended, up to a0. */
  ghost predicate AsIntended(env: Env, s: State, f: Frame, r: State)
    requires Shape(env, s) && Shape(env, r) && WordsOf(env, s)[DIR_OFFSET] <= 9
  {
    SameWordsBut(WordsOf(env, r), Intended(env, s, f), A0) && r.listed == IntendedList(env, s, f)
  }

  lemma ReadExact(env: Env, s: State, f: Frame, e: Effect)
    requires Shape(env, s) && WordsOf(env, s)[DIR_OFFSET] <= 9 && EffectOk(f, e) && Reads(env, s, f)
    ensures CleanCall(env, s, f, e) <==> AsIntended(env, s, f, Call(env, s, f, e).s)
  {
    hide MapsOk, FileOk, DirOk, ContentsOk, LayoutOk, Words, EffectOk, StoresTo, Passive, UserEq, Table, Put, Finish,
         Enter, Finished, FrameAt, PutAll, InKernel, InWord, SetWord;
    hide ReadData;
    var l, data := env.layout, ReadData(env, WordsOf(env, s), f.a2);
    var m := Put(s.mem, f.a1, data);
    PutOne(s.mem, f.a1, data);
    assert Stored(env, s, f, e) == [Block(f.a1, data)];
    KeepsExact(l, m, s.mem, A0);
    AddExact(Words(l, m), Words(l, s.mem), OFFSET, |data|, A0);
    WordIs(l, m, OFFSET);
    SetWordWords(l, m, OFFSET, Wrap(WordAt(l, m, OFFSET) + |data|));
  }

  lemma WordIs(l: Layout, mem: seq<byte>, k: nat)
    requires |mem| == TWO32 && LayoutOk(l) && k < WORDS
    ensures WordAt(l, mem, k) == Words(l, mem)[k]
  {
  }

  lemma PutOne(mem: seq<byte>, at: Word, data: seq<byte>)
    requires |mem| == TWO32 && |data| <= TWO32
    ensures BlocksOk([Block(at, data)]) && PutAll(mem, [Block(at, data)]) == Put(mem, at, data)
    ensures PutAll(mem, []) == mem
  {
    hide Put;
    var bs := [Block(at, data)];
    assert bs[1..] == [];
    assert PutAll(Put(mem, at, data), []) == Put(mem, at, data);
  }

  /** The calls whose only effect on memory is what they store. */
  lemma PlainExact(env: Env, s: State, f: Frame, e: Effect)
    requires Shape(env, s) && WordsOf(env, s)[DIR_OFFSET] <= 9 && EffectOk(f, e) && Storing(f)
    requires !Reads(env, s, f) && !Lists(env, s, f)
    ensures CleanCall(env, s, f, e) <==> AsIntended(env, s, f, Call(env, s, f, e).s)
  {
    hide MapsOk, FileOk, DirOk, ContentsOk, LayoutOk, Words, EffectOk, StoresTo, Passive, UserEq, Table, Put, Finish,
         Enter, Finished, FrameAt, PutAll, InKernel, InWord, SetWord;
    hide StatBytes, EffectBlocks, Dents, ReadData, FstatMeta, PathMetaOf;
    PutOne(s.mem, f.a1, StatOf(Meta(0, 0, 0)));
    if f.a7 == SYS_FSTAT64 {
      StatStores(s, FstatMeta(env, WordsOf(env, s), f.a0), f.a1, EBADF);
    } else if f.a7 == SYS_FSTATAT64 {
      StatStores(s, PathMetaOf(env, s, f.a1), f.a2, ENOENT);
    }
    assert Call(env, s, f, e).s.mem == PutAll(s.mem, Stored(env, s, f, e));
    KeepsExact(env.layout, PutAll(s.mem, Stored(env, s, f, e)), s.mem, A0);
  }

  lemma StatStores(s: State, meta: Option<Meta>, buf: Word, err: Word)
    requires |s.mem| == TWO32
    ensures BlocksOk(StatBlock(meta, buf))
    ensures StatCall(s, meta, buf, err).s == s.(mem := PutAll(s.mem, StatBlock(meta, buf)))
  {
    hide Put, StatBytes, PutAll;
    PutOne(s.mem, buf, if meta.Some? then StatOf(meta.value) else []);
  }

  lemma ListExact(env: Env, s: State, f: Frame, e: Effect)
    requires Shape(env, s) && WordsOf(env, s)[DIR_OFFSET] <= 9 && EffectOk(f, e) && Lists(env, s, f)
    ensures CleanCall(env, s, f, e) <==> AsIntended(env, s, f, Call(env, s, f, e).s)
  {
    hide LayoutOk, ContentsOk, WordsOf, EffectOk, DentsClean, Dents, NextEntry, Records, AsIntended, ListedRight,
         Stored, Call, Lists;
    ListCall(env, s, f, e);
    ListIntended(env, s, f, Call(env, s, f, e).s);
    DentsExact(env, s, f.a1, f.a2, 0);
  }

  lemma ListCall(env: Env, s: State, f: Frame, e: Effect)
    requires Shape(env, s) && EffectOk(f, e) && Lists(env, s, f)
    ensures Call(env, s, f, e) == Dents(env, s, f.a1, f.a2, 0)
  {
    hide LayoutOk, ContentsOk, Words, EffectOk, Dents;
  }

  lemma ListIntended(env: Env, s: State, f: Frame, r: State)
    requires Shape(env, s) && Shape(env, r) && WordsOf(env, s)[DIR_OFFSET] <= 9 && Lists(env, s, f)
    ensures AsIntended(env, s, f, r) <==> ListedRight(env, s, r, NextEntry(WordsOf(env, s)[DIR_OFFSET], f.a2))
  {
    hide LayoutOk, ContentsOk, Words, NextEntry, Table;
  }

  lemma CallExact(env: Env, s: State, f: Frame, e: Effect)
    requires Shape(env, s) && WordsOf(env, s)[DIR_OFFSET] <= 9 && EffectOk(f, e) && Storing(f)
    ensures CleanCall(env, s, f, e) <==> AsIntended(env, s, f, Call(env, s, f, e).s)
  {
    hide EffectOk, Storing, CleanCall, AsIntended, Call, Reads, Lists, LayoutOk, ContentsOk, Words;
    if Reads(env, s, f) {
      ReadExact(env, s, f, e);
    } else if Lists(env, s, f) {
      ListExact(env, s, f, e);
    } else {
      PlainExact(env, s, f, e);
    }
  }

  /** For every trap into a call that stores: the frame comes back as it was but for a0 and the program counter, the
      variables and the listing as intended, exactly when each byte put on them is the byte already there. */
  lemma TrapExact(env: Env, s: State, t: Trap)
    requires Shape(env, s) && TrapOk(t) && Storing(t.frame) && WordsOf(env, s)[DIR_OFFSET] <= 9
    ensures var x := Enter(env, s, t);
            var ret := Call(env, x, t.frame, t.effect).ret;
            && Step(env, s, t).Some? && WordsOf(env, x)[DIR_OFFSET] <= 9
            && (CleanCall(env, x, t.frame, t.effect) <==>
                  && WordsOf(env, Step(env, s, t).value) == Finished(Intended(env, x, t.frame), ret)
                  && Step(env, s, t).value.listed == IntendedList(env, x, t.frame))
  {
    hide MapsOk, FileOk, DirOk, ContentsOk, LayoutOk, Words, EffectOk, StoresTo, Passive, UserEq, Table, Put, Finish,
         Enter, Finished, FrameAt, PutAll, InKernel, InWord, SetWord;
    hide CleanCall, Intended, IntendedList, Call;
    EnterLaw(env, s, t);
    SamePrefix(WordsOf(env, s), WordsOf(env, Enter(env, s, t)));
    var x := Enter(env, s, t);
    var o := Call(env, x, t.frame, t.effect);
    CallExact(env, x, t.frame, t.effect);
    FinishLaw(env.layout, o.s.mem, o.ret);
    FinishedExact(WordsOf(env, o.s), Intended(env, x, t.frame), o.ret);
  }
}
