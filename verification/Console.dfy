/** The booter's line editor: one edited line and a ring of eight remembered lines. */
module Console {
  import opened Bytes

  const HIST_N := 8
  const LINE := 128

  // ---------- what the editor should be ----------

  /** The line being edited, the remembered lines (oldest first), the recall position and the escape state. */
  datatype Editor = Editor(text: seq<byte>, recent: seq<seq<byte>>, pos: int, esc: nat)

  predicate Blank(c: byte) {
    c == 32 || c == 9
  }

  function RTrim(s: seq<byte>): (r: seq<byte>)
    ensures r <= s && (r != [] ==> !Blank(r[|r| - 1]))
    ensures forall i :: |r| <= i < |s| ==> Blank(s[i])
  {
    if s != [] && Blank(s[|s| - 1]) then RTrim(s[..|s| - 1]) else s
  }

  /** Remember a line: not twice in a row, and only the last eight. */
  function Remember(recent: seq<seq<byte>>, s: seq<byte>): seq<seq<byte>> {
    if recent != [] && recent[|recent| - 1] == s then recent
    else if |recent| < HIST_N then recent + [s]
    else recent[|recent| - HIST_N + 1..] + [s]
  }

  function Prev(e: Editor): Editor {
    if e.recent == [] then e
    else
      var p := if e.pos < 0 || e.pos >= |e.recent| then |e.recent| - 1 else if e.pos > 0 then e.pos - 1 else e.pos;
      e.(pos := p, text := e.recent[p])
  }

  function Next(e: Editor): Editor {
    if e.recent == [] || e.pos < 0 then e
    else if e.pos < |e.recent| - 1 then e.(pos := e.pos + 1, text := e.recent[e.pos + 1])
    else e.(pos := -1, text := [])
  }

  function Submit(e: Editor): Editor {
    var t := RTrim(e.text);
    if t == [] then e.(text := []) else e.(text := [], recent := Remember(e.recent, t), pos := -1)
  }

  /** One received character. */
  function Rx(e: Editor, c: byte): Editor {
    if e.esc == 0 && c == 0x1B then e.(esc := 1)
    else if e.esc == 1 then e.(esc := if c == 91 then 2 else 0)
    else if e.esc != 0 then (if c == 65 then Prev(e) else if c == 66 then Next(e) else e).(esc := 0)
    else if c == 0x10 then Prev(e)
    else if c == 0x0E then Next(e)
    else if c == 13 || c == 10 then Submit(e)
    else if c == 8 || c == 127 then if e.text == [] then e else e.(text := e.text[..|e.text| - 1])
    else if 32 <= c <= 126 && |e.text| < LINE - 1 then e.(text := e.text + [c])
    else e
  }

  const START := Editor([], [], -1, 0)

  function Run(cs: seq<byte>): Editor {
    if cs == [] then START else Rx(Run(cs[..|cs| - 1]), cs[|cs| - 1])
  }

  // ---------- what holds in every run ----------

  predicate Printable(s: seq<byte>) {
    |s| < LINE && forall i :: 0 <= i < |s| ==> 32 <= s[i] <= 126
  }

  predicate Trimmed(s: seq<byte>) {
    Printable(s) && s != [] && !Blank(s[|s| - 1])
  }

  predicate Sound(e: Editor) {
    && Printable(e.text) && |e.recent| <= HIST_N && -1 <= e.pos < |e.recent| && e.esc <= 2
    && forall s :: s in e.recent ==> Trimmed(s)
  }

  lemma {:induction false} RunSound(cs: seq<byte>)
    ensures Sound(Run(cs))
  {
    if cs != [] {
      RunSound(cs[..|cs| - 1]);
      RxSound(Run(cs[..|cs| - 1]), cs[|cs| - 1]);
    }
  }

  lemma RxSound(e: Editor, c: byte)
    requires Sound(e)
    ensures Sound(Rx(e, c))
  {
    hide Submit, Prev, Next;
    SubmitSound(e);
    MoveSound(e);
  }

  lemma SubmitSound(e: Editor)
    requires Sound(e)
    ensures Sound(Submit(e)) && Printable(RTrim(e.text))
  {
    RememberSound(e.recent, RTrim(e.text));
  }

  lemma MoveSound(e: Editor)
    requires Sound(e)
    ensures Sound(Prev(e)) && Sound(Next(e))
  {
    if e.recent != [] {
      assert Prev(e).text in e.recent;
      assert 0 <= e.pos < |e.recent| - 1 ==> e.recent[e.pos + 1] in e.recent;
    }
  }

  lemma RememberSound(recent: seq<seq<byte>>, s: seq<byte>)
    requires |recent| <= HIST_N && (forall x :: x in recent ==> Trimmed(x))
    ensures Trimmed(s) ==> 0 < |Remember(recent, s)| <= HIST_N && forall x :: x in Remember(recent, s) ==> Trimmed(x)
  {
  }

  /** The lines a stream submits, right-trimmed, without the blank ones. */
  function Accepted(cs: seq<byte>): seq<seq<byte>> {
    if cs == [] then []
    else
      var before, e, c := Accepted(cs[..|cs| - 1]), Run(cs[..|cs| - 1]), cs[|cs| - 1];
      if e.esc == 0 && (c == 13 || c == 10) && RTrim(e.text) != [] then before + [RTrim(e.text)] else before
  }

  /** Consecutive repetitions removed. */
  function Dedup(ls: seq<seq<byte>>): (r: seq<seq<byte>>)
    ensures ls != [] ==> r != [] && r[|r| - 1] == ls[|ls| - 1]
    ensures forall i :: 0 < i < |r| ==> r[i - 1] != r[i]
  {
    if ls == [] then []
    else
      var d, l := Dedup(ls[..|ls| - 1]), ls[|ls| - 1];
      if |ls| > 1 && ls[|ls| - 2] == l then d else d + [l]
  }

  function LastEight(ls: seq<seq<byte>>): seq<seq<byte>> {
    if |ls| <= HIST_N then ls else ls[|ls| - HIST_N..]
  }

  /** The ring holds the last eight accepted lines, right-trimmed, consecutive duplicates removed. */
  lemma {:induction false} RecentRight(cs: seq<byte>)
    ensures Run(cs).recent == LastEight(Dedup(Accepted(cs)))
  {
    hide Rx, Dedup, LastEight, Remember, RTrim;
    if cs != [] {
      var init, c := cs[..|cs| - 1], cs[|cs| - 1];
      RecentRight(init);
      RxRecent(Run(init), c);
      RememberRight(Accepted(init), RTrim(Run(init).text));
    } else {
      NothingYet();
    }
  }

  lemma NothingYet()
    ensures Dedup([]) == [] && LastEight(Dedup([])) == []
  {
  }

  /** Only an accepted line changes what is remembered. */
  lemma RxRecent(e: Editor, c: byte)
    ensures Rx(e, c).recent == if e.esc == 0 && (c == 13 || c == 10) && RTrim(e.text) != []
        then Remember(e.recent, RTrim(e.text)) else e.recent
  {
  }

  lemma RememberRight(acc: seq<seq<byte>>, t: seq<byte>)
    ensures Remember(LastEight(Dedup(acc)), t) == LastEight(Dedup(acc + [t]))
  {
    hide Dedup;
    DedupSnoc(acc, t);
    NothingYet();
    var d := Dedup(acc);
    if acc != [] && acc[|acc| - 1] == t {
      assert LastEight(d) != [] && LastEight(d)[|LastEight(d)| - 1] == t;
    } else {
      LastEightSnoc(d, t);
    }
  }

  lemma DedupSnoc(acc: seq<seq<byte>>, t: seq<byte>)
    ensures Dedup(acc + [t]) == if acc != [] && acc[|acc| - 1] == t then Dedup(acc) else Dedup(acc) + [t]
  {
    var ls := acc + [t];
    assert ls[..|ls| - 1] == acc;
    if acc != [] {
      assert ls[|ls| - 2] == acc[|acc| - 1];
    }
  }

  lemma LastEightSnoc(d: seq<seq<byte>>, t: seq<byte>)
    requires d != [] ==> d[|d| - 1] != t
    ensures Remember(LastEight(d), t) == LastEight(d + [t])
  {
    if |d| >= HIST_N {
      assert LastEight(d + [t]) == d[|d| - HIST_N + 1..] + [t];
    }
  }

  /** Recall shows the i-th oldest remembered line, and pressing up `k + 1` times from a fresh line shows the k-th
      newest. */
  lemma {:induction false} Recall(e: Editor, k: nat)
    requires Sound(e) && e.pos == -1 && k < |e.recent|
    ensures var r := Ups(e, k + 1);
            r.pos == |e.recent| - 1 - k && r.text == e.recent[|e.recent| - 1 - k] && r.recent == e.recent
  {
    if k != 0 {
      Recall(e, k - 1);
    }
  }

  function Ups(e: Editor, n: nat): Editor {
    if n == 0 then e else Prev(Ups(e, n - 1))
  }

  // ---------- what the keys do ----------

  /** A stream received from some state on. */
  function Typing(e: Editor, cs: seq<byte>): Editor {
    if cs == [] then e else Rx(Typing(e, cs[..|cs| - 1]), cs[|cs| - 1])
  }

  lemma {:induction false} RunIsTyping(cs: seq<byte>)
    ensures Run(cs) == Typing(START, cs)
  {
    hide Rx;
    if cs != [] {
      RunIsTyping(cs[..|cs| - 1]);
    }
  }

  lemma {:induction false} TypingJoin(e: Editor, a: seq<byte>, b: seq<byte>)
    ensures Typing(e, a + b) == Typing(Typing(e, a), b)
  {
    hide Rx;
    if b == [] {
      assert a + b == a;
    } else {
      TypingJoin(e, a, b[..|b| - 1]);
      assert (a + b)[..|a + b| - 1] == a + b[..|b| - 1];
    }
  }

  lemma TypingOne(e: Editor, c: byte)
    ensures Typing(e, [c]) == Rx(e, c)
  {
    hide Rx;
    assert [c][..0] == [];
  }

  /** Printable characters are appended, as long as the line has room. */
  lemma {:induction false} Typed(e: Editor, t: seq<byte>)
    requires e.esc == 0 && |e.text| + |t| < LINE && forall i :: 0 <= i < |t| ==> 32 <= t[i] <= 126
    ensures Typing(e, t) == e.(text := e.text + t)
  {
    if t != [] {
      var init := t[..|t| - 1];
      Typed(e, init);
      assert e.text + init + [t[|t| - 1]] == e.text + t;
    } else {
      assert e.text + t == e.text;
    }
  }

  /** Typing a character on a line with room and erasing it, with either key, changes nothing. */
  lemma Erased(e: Editor, c: byte, key: byte)
    requires e.esc == 0 && |e.text| < LINE - 1 && 32 <= c <= 126 && (key == 8 || key == 127)
    ensures Typing(e, [c, key]) == e
  {
    TypingJoin(e, [c], [key]);
    assert [c] + [key] == [c, key];
    TypingOne(e, c);
    TypingOne(Rx(e, c), key);
    assert (e.text + [c])[..|e.text|] == e.text;
  }

  /** A character past the 127th is dropped. */
  lemma LineFull(e: Editor, c: byte)
    requires e.esc == 0 && |e.text| == 127 && 32 <= c <= 126
    ensures Typing(e, [c]) == e
  {
    TypingOne(e, c);
  }

  /** A blank or a tab at the end of a line does not count, and nothing else is cut off. */
  lemma BlankEnd(t: seq<byte>, c: byte)
    ensures c == ' ' as int || c == '\t' as int ==> RTrim(t + [c]) == RTrim(t)
    ensures c != ' ' as int && c != '\t' as int ==> RTrim(t + [c]) == t + [c]
  {
    assert (t + [c])[..|t|] == t;
  }

  /** A line typed on a fresh line and ended with either Enter is remembered without the blanks at its end. */
  lemma LineTyped(e: Editor, t: seq<byte>, enter: byte)
    requires e.esc == 0 && e.text == [] && Printable(t) && (enter == 13 || enter == 10)
    ensures Typing(e, t + [enter])
         == if RTrim(t) == [] then e else e.(recent := Remember(e.recent, RTrim(t)), pos := -1)
  {
    hide Remember, RTrim;
    TypingJoin(e, t, [enter]);
    Typed(e, t);
    assert [] + t == t;
    TypingOne(e.(text := t), enter);
  }

  /** The arrow keys, and their control characters: ESC [ A and ^P go one line up, ESC [ B and ^N one down. */
  lemma Arrows(e: Editor)
    requires e.esc == 0
    ensures Typing(e, [0x1B, '[' as int, 'A' as int]) == Ups(e, 1) == Typing(e, [0x10])
    ensures Typing(e, [0x1B, '[' as int, 'B' as int]) == Next(e) == Typing(e, [0x0E])
  {
    hide Prev, Next, Submit;
    TypingOne(e, 0x10);
    TypingOne(e, 0x0E);
    var open := e.(esc := 2);
    TypingJoin(e, [0x1B], [91]);
    TypingOne(e, 0x1B);
    TypingOne(e.(esc := 1), 91);
    assert [0x1B] + [91] == [0x1B, 91] && [0x1B, 91] + [65] == [0x1B, 91, 65] && [0x1B, 91] + [66] == [0x1B, 91, 66];
    TypingJoin(e, [0x1B, 91], [65]);
    TypingJoin(e, [0x1B, 91], [66]);
    TypingOne(open, 65);
    TypingOne(open, 66);
    MoveEsc(e);
    assert Ups(e, 0) == e;
  }

  lemma MoveEsc(e: Editor)
    requires e.esc == 0
    ensures Prev(e.(esc := 2)).(esc := 0) == Prev(e) && Next(e.(esc := 2)).(esc := 0) == Next(e)
    ensures Prev(e).esc == 0 && Next(e).esc == 0
  {
  }

  /** Down undoes up, and from the newest line it leads back to an empty line. */
  lemma DownAfterUp(e: Editor, k: nat)
    requires Sound(e) && e.pos == -1 && k < |e.recent|
    ensures Next(Ups(e, k + 1)) == if k == 0 then e.(text := []) else Ups(e, k)
  {
    Recall(e, k);
    if k != 0 {
      Recall(e, k - 1);
    }
  }

  /** The lines typed one after the other, each ended with Enter. */
  function Stream(lines: seq<seq<byte>>): seq<byte> {
    if lines == [] then [] else Stream(lines[..|lines| - 1]) + (lines[|lines| - 1] + [13])
  }

  lemma TrimmedStays(t: seq<byte>)
    requires Trimmed(t)
    ensures RTrim(t) == t
  {
  }

  /** After any lines have been typed the line is empty and the last eight of them are remembered, repetitions in a row
      once. */
  lemma {:induction false} LinesTyped(lines: seq<seq<byte>>)
    requires forall l :: l in lines ==> Trimmed(l)
    ensures Run(Stream(lines)) == Editor([], LastEight(Dedup(lines)), -1, 0)
  {
    hide Rx, Dedup, LastEight, Remember, RTrim;
    RunIsTyping(Stream(lines));
    if lines == [] {
      NothingYet();
    } else {
      var init, l := lines[..|lines| - 1], lines[|lines| - 1];
      assert l in lines && init + [l] == lines;
      LinesTyped(init);
      RunIsTyping(Stream(init));
      TypingJoin(START, Stream(init), l + [13]);
      LineTyped(Typing(START, Stream(init)), l, 13);
      TrimmedStays(l);
      RememberRight(init, l);
    }
  }

  lemma {:induction false} NoRepeats(lines: seq<seq<byte>>)
    requires forall i :: 0 < i < |lines| ==> lines[i - 1] != lines[i]
    ensures Dedup(lines) == lines
  {
    if lines != [] {
      NoRepeats(lines[..|lines| - 1]);
    }
  }

  /** Of lines without a repetition in a row the last eight are remembered. */
  lemma EightKept(lines: seq<seq<byte>>)
    requires (forall l :: l in lines ==> Trimmed(l)) && forall i :: 0 < i < |lines| ==> lines[i - 1] != lines[i]
    ensures Run(Stream(lines)).recent == if |lines| <= 8 then lines else lines[|lines| - 8..]
  {
    hide Dedup, Run, Stream;
    LinesTyped(lines);
    NoRepeats(lines);
  }

  // ---------- the code ----------

  /** The slot that holds remembered line `i`, oldest first. */
  function Slot(count: nat, widx: nat, i: nat): (r: nat)
    ensures r < HIST_N
  {
    ((if count < HIST_N then 0 else widx) + i) % HIST_N
  }

  /** A 128-byte buffer that holds the NUL-terminated string `s`. */
  ghost predicate Holds(row: seq<byte>, s: seq<byte>) {
    |row| == LINE && Printable(s) && row[|s|] == 0 && row[..|s|] == s
  }

  /** The eight buffers hold the remembered lines. */
  ghost predicate Ring(rows: seq<seq<byte>>, count: nat, widx: nat, recent: seq<seq<byte>>) {
    && |rows| == HIST_N && (forall r :: 0 <= r < HIST_N ==> |rows[r]| == LINE)
    && count == |recent| <= HIST_N && widx < HIST_N && (count < HIST_N ==> widx == count)
    && forall i :: 0 <= i < count ==> SlotHolds(rows, count, widx, recent, i)
  }

  ghost predicate SlotHolds(rows: seq<seq<byte>>, count: nat, widx: nat, recent: seq<seq<byte>>, i: nat)
    requires |rows| == HIST_N && i < |recent|
  {
    Holds(rows[Slot(count, widx, i)], recent[i])
  }

  /** Storing a line over the write slot and advancing it keeps the ring. */
  lemma Stored(rows: seq<seq<byte>>, count: nat, widx: nat, recent: seq<seq<byte>>, row: seq<byte>, s: seq<byte>)
    requires Ring(rows, count, widx, recent) && Holds(row, s) && |row| == LINE
    requires (recent == [] || recent[|recent| - 1] != s)
    ensures Ring(rows[widx := row], if count < HIST_N then count + 1 else count, (widx + 1) % HIST_N,
                 Remember(recent, s))
  {
    hide Holds, Slot;
    var rows', count', widx', recent' := rows[widx := row], if count < HIST_N then count + 1 else count,
        (widx + 1) % HIST_N, Remember(recent, s);
    SlotsMoved(count, widx);
    forall i | 0 <= i < count' ensures SlotHolds(rows', count', widx', recent', i) {
      if i < count' - 1 {
        var j := if count < HIST_N then i else i + 1;
        assert SlotHolds(rows, count, widx, recent, j) && recent'[i] == recent[j];
      }
    }
  }

  lemma RememberSame(recent: seq<seq<byte>>, s: seq<byte>)
    requires recent != [] && recent[|recent| - 1] == s
    ensures Remember(recent, s) == recent
  {
  }

  lemma HoldsLength(row: seq<byte>, s: seq<byte>)
    requires Holds(row, s)
    ensures |row| == LINE
  {
  }

  lemma NewestRow(rows: seq<seq<byte>>, count: nat, widx: nat, recent: seq<seq<byte>>)
    requires Ring(rows, count, widx, recent) && 0 < count
    ensures |recent| == count && |rows| == HIST_N && Holds(rows[(widx + HIST_N - 1) % HIST_N], recent[count - 1])
  {
    assert SlotHolds(rows, count, widx, recent, count - 1);
  }

  lemma RingShape(rows: seq<seq<byte>>, count: nat, widx: nat, recent: seq<seq<byte>>)
    requires Ring(rows, count, widx, recent)
    ensures |rows| == HIST_N && widx < HIST_N && |rows[widx]| == LINE && count == |recent| <= HIST_N
  {
  }

  /** Where the old rows are after one more is stored. */
  lemma SlotsMoved(count: nat, widx: nat)
    requires count <= HIST_N && widx < HIST_N && (count < HIST_N ==> widx == count)
    ensures var count', widx' := if count < HIST_N then count + 1 else count, (widx + 1) % HIST_N;
            && Slot(count', widx', count' - 1) == widx
            && (count < HIST_N ==> forall i :: 0 <= i < count ==>
                Slot(count', widx', i) == Slot(count, widx, i) != widx)
            && (count == HIST_N ==> forall i :: 0 <= i < count - 1 ==>
                Slot(count', widx', i) == Slot(count, widx, i + 1) != widx)
  {
    if count == HIST_N {
      var widx' := (widx + 1) % HIST_N;
      forall i | 0 <= i < count - 1 ensures Slot(count, widx', i) == Slot(count, widx, i + 1) != widx {
        Turned(widx, i);
      }
    }
  }

  lemma Turned(widx: nat, i: nat)
    requires widx < HIST_N && i < HIST_N - 1
    ensures ((widx + 1) % HIST_N + i) % HIST_N == (widx + i + 1) % HIST_N != widx
    ensures ((widx + 1) % HIST_N + HIST_N - 1) % HIST_N == widx
  {
  }

  class LineEditor {
    var line: array<byte>
    var len: nat
    var hist: array<seq<byte>>
    var histCount: nat
    var histWidx: nat
    var histPos: int
    var escState: nat
    ghost var recent: seq<seq<byte>>

    ghost predicate Shape()
      reads this, hist
    {
      && line.Length == LINE && hist.Length == HIST_N && len < LINE && Ring(hist[..], histCount, histWidx, recent)
    }

    ghost predicate Valid()
      reads this, line, hist
    {
      Shape() && Sound(View())
    }

    ghost function View(): Editor
      requires Shape()
      reads this, line, hist
    {
      Editor(line[..len], recent, histPos, escState)
    }

    constructor ()
      ensures Valid() && View() == START && fresh(line) && fresh(hist)
    {
      line := new byte[LINE](_ => 0);
      hist := new seq<byte>[HIST_N](_ => Zeros(LINE));
      len, histCount, histWidx, histPos, escState, recent := 0, 0, 0, -1, 0, [];
    }

    /** The comparison loop: is the line the string in `row`? */
    method SameAs(row: seq<byte>, ghost s: seq<byte>) returns (same: bool)
      requires Shape() && Holds(row, s) && line[len] == 0 && Printable(line[..len])
      ensures same <==> line[..len] == s
    {
      hide Ring;
      var a := 0;
      while line[a] != 0 || row[a] != 0
        invariant 0 <= a <= len && a <= |s| && line[..a] == s[..a]
        decreases LINE - a
      {
        if line[a] != row[a] {
          return false;
        }
        a := a + 1;
      }
      return true;
    }

    method CopyToRow(row: seq<byte>) returns (r: seq<byte>)
      requires Shape() && |row| == LINE && line[len] == 0 && Printable(line[..len])
      ensures Holds(r, line[..len])
    {
      hide Ring;
      r := row;
      var i := 0;
      while line[i] != 0 && i < LINE - 1
        invariant 0 <= i <= len && |r| == LINE && r[..i] == line[..i]
        decreases LINE - i
      {
        r := r[i := line[i]];
        i := i + 1;
      }
      r := r[i := 0];
    }

    /** `hist_store`. */
    method HistStore()
      requires Shape() && line[len] == 0 && Printable(line[..len])
      modifies hist, `histWidx, `histCount, `recent
      ensures Shape() && recent == if len == 0 then old(recent) else Remember(old(recent), line[..len])
    {
      hide Ring, Remember, Holds;
      if len == 0 {
        return;
      }
      ghost var s, rows := line[..len], hist[..];
      RingShape(rows, histCount, histWidx, recent);
      if histCount > 0 {
        var last := (histWidx + HIST_N - 1) % HIST_N;
        NewestRow(rows, histCount, histWidx, recent);
        var same := SameAs(hist[last], recent[histCount - 1]);
        if same {
          RememberSame(recent, s);
          return;
        }
      }
      var row := CopyToRow(hist[histWidx]);
      HoldsLength(row, s);
      Stored(rows, histCount, histWidx, recent, row, s);
      hist[histWidx] := row;
      assert hist[..] == rows[histWidx := row];
      recent := Remember(recent, s);
      histWidx := (histWidx + 1) % HIST_N;
      if histCount < HIST_N {
        histCount := histCount + 1;
      }
    }

    /** `hist_recall_index`: line `idx`, oldest first, becomes the edited line. */
    method RecallIndex(idx: nat)
      requires Shape() && idx < histCount
      modifies line, `len
      ensures Shape() && line[..len] == recent[idx]
    {
      var base := if histCount < HIST_N then 0 else histWidx % HIST_N;
      var pos := (base + idx) % HIST_N;
      ghost var s := recent[idx];
      assert SlotHolds(hist[..], histCount, histWidx, recent, idx);
      var row := hist[pos];
      len := 0;
      var i := 0;
      while row[i] != 0 && i < LINE - 1
        invariant 0 <= i == len <= |s| && line[..i] == s[..i]
        invariant line.Length == LINE
        decreases LINE - i
      {
        line[i] := row[i];
        len := len + 1;
        i := i + 1;
      }
      line[len] := 0;
      assert i == |s| && s[..i] == s;
    }

    method HistPrev()
      requires Valid()
      modifies line, `len, `histPos
      ensures Valid() && View() == Prev(old(View()))
    {
      if histCount == 0 {
        return;
      }
      if histPos < 0 {
        histPos := histCount - 1;
      } else if histPos > 0 {
        histPos := histPos - 1;
      }
      MoveSound(old(View()));
      RecallIndex(histPos);
    }

    method HistNext()
      requires Valid()
      modifies line, `len, `histPos
      ensures Valid() && View() == Next(old(View()))
    {
      if histCount == 0 || histPos < 0 {
        return;
      }
      MoveSound(old(View()));
      if histPos < histCount - 1 {
        histPos := histPos + 1;
        RecallIndex(histPos);
      } else {
        histPos, len := -1, 0;
        line[0] := 0;
      }
    }

    /** `rtrim_current_line`. */
    method RTrimLine()
      requires Shape()
      modifies line, `len
      ensures Shape() && line[..len] == RTrim(old(line[..len])) && line[len] == 0 && len <= old(len)
    {
      hide Ring;
      ghost var text := line[..len];
      var end := len;
      assert text[..end] == text;
      while end > 0 && Blank(line[end - 1])
        invariant 0 <= end <= len && RTrim(text[..end]) == RTrim(text)
      {
        assert text[..end][..end - 1] == text[..end - 1];
        end := end - 1;
      }
      line[end] := 0;
      len := end;
      assert line[..len] == text[..end];
    }

    /** Enter: trim, remember, start afresh. */
    method Enter()
      requires Valid()
      modifies line, hist, `len, `histWidx, `histCount, `recent, `histPos
      ensures Valid() && View() == Submit(old(View()))
    {
      hide Ring, RTrim, Remember;
      SubmitSound(View());
      line[len] := 0;
      assert line[..len] == old(line[..len]);
      RTrimLine();
      if len != 0 {
        HistStore();
        histPos := -1;
      }
      len := 0;
      line[0] := 0;
    }

    /** `console_rx_char`: one step of the specification. */
    method RxChar(c: byte)
      requires Valid()
      modifies this, line, hist
      ensures line == old(line) && hist == old(hist)
      ensures Valid() && View() == Rx(old(View()), c)
    {
      hide Ring, Submit, Prev, Next;
      if escState == 0 && c == 0x1B {
        escState := 1;
      } else if escState == 1 {
        escState := if c == 91 then 2 else 0;
      } else if escState != 0 {
        if c == 65 {
          HistPrev();
        } else if c == 66 {
          HistNext();
        }
        escState := 0;
      } else if c == 0x10 {
        HistPrev();
      } else if c == 0x0E {
        HistNext();
      } else if c == 13 || c == 10 {
        Enter();
      } else if c == 8 || c == 127 {
        if len > 0 {
          len := len - 1;
        }
      } else if 32 <= c <= 126 && len < LINE - 1 {
        line[len] := c;
        len := len + 1;
      }
    }
  }

  /** A whole stream of received characters, from a fresh console. */
  method Session(cs: seq<byte>) returns (ed: LineEditor)
    ensures ed.Valid() && ed.View() == Run(cs)
    ensures ed.recent == LastEight(Dedup(Accepted(cs)))
  {
    hide Rx, Dedup, Accepted, LastEight, Sound, Ring;
    ed := new LineEditor();
    for i := 0 to |cs|
      invariant fresh(ed) && fresh(ed.line) && fresh(ed.hist)
      invariant ed.Valid() && ed.View() == Run(cs[..i])
    {
      ed.RxChar(cs[i]);
      assert cs[..i + 1][..i] == cs[..i];
    }
    assert cs[..|cs|] == cs;
    RecentRight(cs);
  }
}
