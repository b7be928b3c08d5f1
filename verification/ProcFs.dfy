/** The /proc directory of the stage-0 kernel and the records `getdents64` and `stat` hand out. */
module ProcFs {
  import opened Bytes
  import opened Machine
  import opened UserMemory

  // ---------- directory records ----------

  datatype Dirent = Dirent(ino: nat, off: nat, kind: byte, name: seq<byte>)

  const DT_DIR: byte := 4
  const DT_REG: byte := 8
  const HEAD := 19

  function Names(): (t: seq<(seq<byte>, nat, byte)>)
    ensures |t| == 9
  {
    [(Lit("."), 5, DT_DIR), (Lit(".."), 2, DT_DIR), (Lit("self"), 6, DT_DIR), (Lit("cpuinfo"), 9, DT_REG),
     (Lit("meminfo"), 10, DT_REG),
     (Lit("caribeos"), 11, DT_REG), (Lit("version"), 8, DT_REG), (Lit("uptime"), 12, DT_REG), (Lit("stat"), 13, DT_REG)]
  }

  /** What fits a record: a short name without NUL. */
  predicate Plain(d: Dirent) {
    d.ino < TWO32 && d.off < TWO32 && |d.name| < 200 && 0 !in d.name
  }

  /** The directory, in order; each entry's offset is the position of the next. */
  function Table(): (t: seq<Dirent>)
    ensures |t| == 9
    ensures forall i :: 0 <= i < 9 ==> Plain(t[i]) && t[i].off == i + 1
  {
    var n := Names();
    NamesPlain();
    seq(9, i requires 0 <= i < 9 => Dirent(n[i].1, i + 1, n[i].2, n[i].0))
  }

  lemma NamesPlain()
    ensures forall i :: 0 <= i < 9 ==> 0 !in Names()[i].0 && |Names()[i].0| < 200 && Names()[i].1 < TWO32
  {
    var n := Names();
    forall i | 0 <= i < 9 ensures 0 !in n[i].0 {
      NamePlain(i);
    }
  }

  lemma NamePlain(i: nat)
    requires i < 9
    ensures 0 !in Names()[i].0
  {
  }

  function RecLen(name: seq<byte>): (r: nat)
    ensures r % 8 == 0 && HEAD + |name| + 1 <= r < HEAD + |name| + 9
  {
    var n := HEAD + |name| + 1;
    n + (8 - n % 8) % 8
  }

  /** One `linux_dirent64`: inode, offset, record length, type, name, NUL and zero padding. */
  function Record(d: Dirent): (b: seq<byte>)
    requires Plain(d)
    ensures |b| == RecLen(d.name)
  {
    EncLe32(d.ino) + Zeros(4) + EncLe32(d.off) + Zeros(4) + EncLe16(RecLen(d.name)) + [d.kind] + d.name
    + Zeros(RecLen(d.name) - HEAD - |d.name|)
  }

  /** The records of entries `i..j`. */
  function Records(i: nat, j: nat): (b: seq<byte>)
    requires i <= j <= 9
    decreases j
  {
    if i == j then [] else Records(i, j - 1) + Record(Table()[j - 1])
  }

  // ---------- reading the records back ----------

  /** Walk a buffer by `d_reclen`, as a caller does. */
  function Decode(b: seq<byte>): Option<seq<Dirent>>
    decreases |b|
  {
    if b == [] then Some([])
    else if |b| <= HEAD then None
    else
      var len := Le16(b, 16);
      if len <= HEAD || len > |b| then None
      else
        var rest := Decode(b[len..]);
        if rest.None? then None else Some([Dirent(Le32(b, 0), Le32(b, 8), b[18], CStr(b[HEAD..len]))] + rest.value)
  }

  lemma {:induction false} CStrOf(s: seq<byte>, z: seq<byte>)
    requires 0 !in s && (z == [] || z[0] == 0)
    ensures CStr(s + z) == s
  {
    if s == [] {
      assert s + z == z;
    } else {
      assert (s + z)[1..] == s[1..] + z && s[0] in s;
      CStrOf(s[1..], z);
    }
  }

  lemma LeHere(b: seq<byte>, o: nat, n: nat, v: nat)
    requires o + n <= |b|
    ensures n == 4 && v < TWO32 && b[o..o + 4] == EncLe32(v) ==> Le32(b, o) == v
    ensures n == 2 && v < TWO16 && b[o..o + 2] == EncLe16(v) ==> Le16(b, o) == v
  {
    if n == 4 && v < TWO32 && b[o..o + 4] == EncLe32(v) {
      var e := EncLe32(v);
      assert e[0] == b[o..o + 4][0] == b[o] && e[1] == b[o..o + 4][1] == b[o + 1] && e[2] == b[o..o + 4][2] == b[o + 2]
          && e[3] == b[o..o + 4][3] == b[o + 3];
    }
    if n == 2 && v < TWO16 && b[o..o + 2] == EncLe16(v) {
      var e := EncLe16(v);
      assert e[0] == b[o..o + 2][0] == b[o] && e[1] == b[o..o + 2][1] == b[o + 1];
    }
  }

  /** The fields of a record in front of other bytes. */
  lemma RecordFields(d: Dirent, rest: seq<byte>)
    requires Plain(d)
    ensures var b, len := Record(d) + rest, RecLen(d.name);
            && Le32(b, 0) == d.ino && Le32(b, 8) == d.off && Le16(b, 16) == len && b[18] == d.kind
            && CStr(b[HEAD..len]) == d.name && b[len..] == rest
  {
    hide EncLe32, EncLe16, Le32, Le16, CStr, RecLen;
    var len := RecLen(d.name);
    var e, o, l, z := EncLe32(d.ino), EncLe32(d.off), EncLe16(len), Zeros(len - HEAD - |d.name|);
    var b := Record(d) + rest;
    assert b[0..4] == e && b[8..12] == o && b[16..18] == l;
    LeHere(b, 0, 4, d.ino);
    LeHere(b, 8, 4, d.off);
    LeHere(b, 16, 2, len);
    assert b[HEAD..len] == d.name + z;
    CStrOf(d.name, z);
  }

  lemma DecodeRecord(d: Dirent, rest: seq<byte>)
    requires Plain(d) && Decode(rest).Some?
    ensures Decode(Record(d) + rest) == Some([d] + Decode(rest).value)
  {
    hide Record, RecLen, Le32, Le16, CStr;
    RecordFields(d, rest);
  }

  lemma {:induction false} RecordsFront(i: nat, j: nat)
    requires i < j <= 9
    ensures Records(i, j) == Record(Table()[i]) + Records(i + 1, j)
    decreases j
  {
    hide Table, Record;
    if i + 1 < j {
      RecordsFront(i, j - 1);
    }
  }

  /** Decoding the records of a stretch of the directory gives exactly that stretch. */
  lemma {:induction false} DecodeRecords(i: nat, j: nat)
    requires i <= j <= 9
    ensures Decode(Records(i, j)) == Some(Table()[i..j])
    decreases j - i
  {
    hide Table, Record, Records, Decode;
    if i < j {
      DecodeRecords(i + 1, j);
      RecordsFront(i, j);
      DecodeRecord(Table()[i], Records(i + 1, j));
      assert [Table()[i]] + Table()[i + 1..j] == Table()[i..j];
    } else {
      NoRecords(i);
    }
  }

  lemma NoRecords(i: nat)
    requires i <= 9
    ensures Decode(Records(i, i)) == Some([]) && Table()[i..i] == []
  {
    hide Table;
  }

  /** `linux_copyout_dirent64`. */
  method CopyoutDirent(mem: seq<byte>, a: Word, d: Dirent) returns (r: seq<byte>, len: nat)
    requires |mem| == TWO32 && Plain(d)
    ensures r == Put(mem, a, Record(d)) && len == RecLen(d.name)
  {
    hide Put, EncLe32, EncLe16, Patch, Record, RecLen;
    len := RecLen(d.name);
    r := ZeroOut(mem, a, len);
    ghost var b := Zeros(len);
    r, b := PutWord(mem, r, a, b, 0, EncLe32(d.ino) + EncLe32(0));
    r, b := PutWord(mem, r, a, b, 8, EncLe32(d.off) + EncLe32(0));
    r, b := PutWord(mem, r, a, b, 16, EncLe16(len));
    r, b := PutWord(mem, r, a, b, 18, [d.kind]);
    r, b := PutWord(mem, r, a, b, HEAD, d.name);
    r, b := PutWord(mem, r, a, b, HEAD + |d.name|, [0]);
    RecordBuilt(d);
  }

  lemma RecordBuilt(d: Dirent)
    requires Plain(d)
    ensures var len := RecLen(d.name);
            && HEAD + |d.name| + 1 <= len
            && Patch(Patch(Patch(Patch(Patch(Patch(Zeros(len), 0, EncLe32(d.ino) + EncLe32(0)), 8,
                                             EncLe32(d.off) + EncLe32(0)), 16, EncLe16(len)),
                 18, [d.kind]), HEAD, d.name), HEAD + |d.name|, [0]) == Record(d)
  {
    hide EncLe16, RecLen;
    assert EncLe32(0) == Zeros(4);
  }

  // ---------- stat records ----------

  const STAT_SIZE := 104
  const SIZE_OFF := 48

  /** The bytes `linux_copyout_stat64` stores: device, inode, mode, links, size, block size, blocks. */
  function StatBytes(mode: Word, size: Word, ino: Word): (b: seq<byte>)
    ensures |b| == STAT_SIZE
  {
    var ids := Patch(Patch(Zeros(STAT_SIZE), 0, EncLe32(1) + EncLe32(0)), 8, EncLe32(ino) + EncLe32(0));
    var typed := Patch(Patch(ids, 16, EncLe32(mode)), 20, EncLe32(1));
    var sized := Patch(Patch(typed, SIZE_OFF, EncLe32(size) + EncLe32(0)), 56, EncLe32(4096));
    Patch(sized, 64, EncLe32(if size == 0 then 0 else 1) + EncLe32(0))
  }

  /** The words of a stat record that hold something. */
  predicate StatWord(i: nat) {
    i < 4 || 8 <= i < 12 || 16 <= i < 24 || 48 <= i < 52 || 56 <= i < 60 || 64 <= i < 68
  }

  /** A reader of `struct stat64` finds device 1, the inode, the mode, one link, the size, the block size and the block
      count where the structure has them, and zeros elsewhere. */
  lemma StatFields(mode: Word, size: Word, ino: Word)
    ensures var b := StatBytes(mode, size, ino);
            && |b| == 104 && Le32(b, 0) == 1 && Le32(b, 8) == ino && Le32(b, 16) == mode && Le32(b, 20) == 1
            && Le32(b, SIZE_OFF) == Le32(b, 48) == size && Le32(b, 56) == 4096
            && Le32(b, 64) == (if size == 0 then 0 else 1)
            && forall i :: 0 <= i < 104 && !StatWord(i) ==> b[i] == 0
  {
    hide EncLe32, Le32, StatBytes;
    StatHead(mode, size, ino);
    StatTail(mode, size, ino);
    StatZeros(mode, size, ino);
  }

  lemma StatHead(mode: Word, size: Word, ino: Word)
    ensures var b := StatBytes(mode, size, ino);
            Le32(b, 0) == 1 && Le32(b, 8) == ino && Le32(b, 16) == mode && Le32(b, 20) == 1
  {
    hide EncLe32, Le32;
    var b := StatBytes(mode, size, ino);
    assert b[0..4] == EncLe32(1) && b[8..12] == EncLe32(ino);
    assert b[16..20] == EncLe32(mode) && b[20..24] == EncLe32(1);
    LeHere(b, 0, 4, 1);
    LeHere(b, 8, 4, ino);
    LeHere(b, 16, 4, mode);
    LeHere(b, 20, 4, 1);
  }

  lemma StatTail(mode: Word, size: Word, ino: Word)
    ensures var b := StatBytes(mode, size, ino);
            Le32(b, 48) == size && Le32(b, 56) == 4096 && Le32(b, 64) == if size == 0 then 0 else 1
  {
    hide EncLe32, Le32;
    var b, n := StatBytes(mode, size, ino), if size == 0 then 0 else 1;
    assert b[48..52] == EncLe32(size) && b[56..60] == EncLe32(4096) && b[64..68] == EncLe32(n);
    LeHere(b, 48, 4, size);
    LeHere(b, 56, 4, 4096);
    LeHere(b, 64, 4, n);
  }

  lemma StatZeros(mode: Word, size: Word, ino: Word)
    ensures forall i :: 0 <= i < 104 && !StatWord(i) ==> StatBytes(mode, size, ino)[i] == 0
  {
    hide EncLe32, Le32;
    ZeroWord();
  }

  lemma ZeroWord()
    ensures EncLe32(0) == Zeros(4)
  {
  }

  /** `linux_copyout_stat64`. */
  method CopyoutStat(mem: seq<byte>, a: Word, mode: Word, size: Word, ino: Word) returns (r: seq<byte>)
    requires |mem| == TWO32
    ensures r == Put(mem, a, StatBytes(mode, size, ino))
  {
    hide Put, EncLe32, Patch;
    var blocks: Word := if size == 0 then 0 else 1;
    r := ZeroOut(mem, a, STAT_SIZE);
    ghost var b := Zeros(STAT_SIZE);
    r, b := PutWord(mem, r, a, b, 0, EncLe32(1) + EncLe32(0));
    r, b := PutWord(mem, r, a, b, 8, EncLe32(ino) + EncLe32(0));
    r, b := PutWord(mem, r, a, b, 16, EncLe32(mode));
    r, b := PutWord(mem, r, a, b, 20, EncLe32(1));
    r, b := PutWord(mem, r, a, b, 48, EncLe32(size) + EncLe32(0));
    r, b := PutWord(mem, r, a, b, 56, EncLe32(4096));
    r, b := PutWord(mem, r, a, b, 64, EncLe32(blocks) + EncLe32(0));
  }

  /** One store into a record being built at `a`. */
  method PutWord(ghost mem: seq<byte>, cur: seq<byte>, a: Word, ghost b: seq<byte>, o: nat,
                 d: seq<byte>) returns (r: seq<byte>, ghost b': seq<byte>)
    requires |mem| == |cur| == TWO32 && |b| < 1000 && o + |d| <= |b| && cur == Put(mem, a, b)
    ensures b' == Patch(b, o, d) && r == Put(mem, a, b') && |b'| == |b|
  {
    hide Put, Patch;
    PutInside(mem, a, b, o, d);
    r := CopyOut(cur, Wrap(a + o), d);
    b' := Patch(b, o, d);
  }
}
