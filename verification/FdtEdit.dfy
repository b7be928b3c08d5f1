/** The console's in-place edit of the boot arguments, and its round trip with the reader. */
module FdtEdit {
  import opened Bytes
  import opened Fdt
  import opened FdtChosen
  import opened FdtWalk

  /** Where token `i` starts. */
  function TokPos(p: nat, toks: seq<Tok>, i: nat): nat
    requires i <= |toks|
    decreases |toks|
  {
    if i == 0 then p else TokPos(TokEnd(p, toks[0]), toks[1..], i - 1)
  }

  /** The two blobs differ at most in `[x, y)`. */
  predicate SameBut(a: seq<byte>, b: seq<byte>, x: nat, y: nat) {
    |a| == |b| && forall i :: 0 <= i < |a| && !(x <= i < y) ==> a[i] == b[i]
  }

  lemma SameWord(a: seq<byte>, b: seq<byte>, x: nat, y: nat, o: nat)
    requires SameBut(a, b, x, y) && o + 4 <= |a| && (o + 4 <= x || y <= o)
    ensures Be32(b, o) == Be32(a, o)
  {
  }

  lemma SameString(a: seq<byte>, b: seq<byte>, x: nat, y: nat, o: nat, s: seq<byte>)
    requires SameBut(a, b, x, y) && StringAt(a, o, s) && (o + |s| < x || y <= o)
    ensures StringAt(b, o, s)
  {
    forall i | 0 <= i < |s| ensures CharAt(b, o, s, i) {
      assert CharAt(a, o, s, i);
    }
  }

  lemma SameData(a: seq<byte>, b: seq<byte>, x: nat, y: nat, o: nat, n: nat)
    requires SameBut(a, b, x, y) && o + n <= |a| && (o + n <= x || y <= o)
    ensures b[o..o + n] == a[o..o + n]
  {
  }

  /** The name of the property at `p` does not reach into `[x, y)`. */
  predicate NameOff(b: seq<byte>, k: Block, p: nat, t: Tok, x: nat, y: nat) {
    t.Prop? && p + 12 <= |b| ==> k.strs + Be32(b, p + 8) + |t.pname| < x || y <= k.strs + Be32(b, p + 8)
  }

  predicate NamesOff(b: seq<byte>, k: Block, p: nat, toks: seq<Tok>, x: nat, y: nat)
    decreases |toks|
  {
    toks != [] ==> NameOff(b, k, p, toks[0], x, y) && NamesOff(b, k, TokEnd(p, toks[0]), toks[1..], x, y)
  }

  /** An edit inside the structure block that touches no property name leaves the tokens beside it alone. */
  lemma TokFrame(a: seq<byte>, b: seq<byte>, x: nat, y: nat, k: Block, p: nat, t: Tok)
    requires SameBut(a, b, x, y) && k.lo <= x <= y <= k.hi && TokAt(a, k, p, t)
    requires (TokEnd(p, t) <= x || y <= p) && NameOff(a, k, p, t, x, y)
    ensures TokAt(b, k, p, t)
  {
    hide Be32, StringAt;
    SameWord(a, b, x, y, p);
    if t.Begin? {
      SameString(a, b, x, y, p + 4, t.name);
    } else if t.Prop? {
      SameWord(a, b, x, y, p + 4);
      SameWord(a, b, x, y, p + 8);
      SameString(a, b, x, y, k.strs + Be32(a, p + 8), t.pname);
      SameData(a, b, x, y, p + 12, |t.data|);
    }
  }

  lemma {:induction false} RestFrame(a: seq<byte>, b: seq<byte>, x: nat, y: nat, k: Block, p: nat, toks: seq<Tok>)
    requires SameBut(a, b, x, y) && k.lo <= x <= y <= k.hi && y <= p && Encoded(a, k, p, toks)
    requires NamesOff(a, k, p, toks, x, y)
    ensures Encoded(b, k, p, toks)
    decreases |toks|
  {
    hide TokAt, NameOff;
    if toks != [] {
      TokFrame(a, b, x, y, k, p, toks[0]);
      RestFrame(a, b, x, y, k, TokEnd(p, toks[0]), toks[1..]);
    }
  }

  /** The property itself after its data is replaced by as many bytes. */
  lemma PropEdited(a: seq<byte>, k: Block, p: nat, pname: seq<byte>, was: seq<byte>, data: seq<byte>)
    requires TokAt(a, k, p, Prop(pname, was)) && |data| == |was|
    requires NameOff(a, k, p, Prop(pname, was), p + 12, p + 12 + |was|)
    ensures p + 12 + |data| <= |a| && k.lo <= p + 12 && p + 12 + |data| <= k.hi
    ensures TokEnd(p, Prop(pname, data)) == TokEnd(p, Prop(pname, was))
    ensures TokAt(Patch(a, p + 12, data), k, p, Prop(pname, data))
    ensures SameBut(a, Patch(a, p + 12, data), p + 12, p + 12 + |data|)
  {
    hide Be32, StringAt;
    var b := Patch(a, p + 12, data);
    var x, y := p + 12, p + 12 + |data|;
    SameWord(a, b, x, y, p);
    SameWord(a, b, x, y, p + 4);
    SameWord(a, b, x, y, p + 8);
    SameString(a, b, x, y, k.strs + Be32(a, p + 8), pname);
  }

  /** The data of the property at `p` lies in the structure block. */
  ghost predicate DataAt(a: seq<byte>, k: Block, p: nat, t: Tok) {
    t.Prop? && p + 12 + |t.data| <= k.hi <= |a| && k.lo <= p + 12 && a[p + 12..p + 12 + |t.data|] == t.data
  }

  lemma {:induction false} PropAt(a: seq<byte>, k: Block, p: nat, toks: seq<Tok>, i: nat)
    requires Encoded(a, k, p, toks) && i < |toks| && toks[i].Prop?
    ensures TokAt(a, k, TokPos(p, toks, i), toks[i]) && DataAt(a, k, TokPos(p, toks, i), toks[i])
    ensures p <= TokPos(p, toks, i)
    decreases |toks|
  {
    if i != 0 {
      PropAt(a, k, TokEnd(p, toks[0]), toks[1..], i - 1);
    }
  }

  /** Replacing the data of one property by as many bytes, none of them in a name, changes one token of the stream. */
  lemma {:induction false} EditEncoded(a: seq<byte>, k: Block, p: nat, toks: seq<Tok>, i: nat, data: seq<byte>)
    requires Encoded(a, k, p, toks) && i < |toks| && toks[i].Prop? && |data| == |toks[i].data|
    requires NamesOff(a, k, p, toks, TokPos(p, toks, i) + 12, TokPos(p, toks, i) + 12 + |data|)
    ensures var pos := TokPos(p, toks, i);
            && DataAt(a, k, pos, toks[i]) && p <= pos
            && SameBut(a, Patch(a, pos + 12, data), pos + 12, pos + 12 + |data|)
            && Encoded(Patch(a, pos + 12, data), k, p, toks[i := Prop(toks[i].pname, data)])
    decreases |toks|
  {
    hide TokAt, Patch, SameBut, NameOff;
    PropAt(a, k, p, toks, i);
    var pos, t := TokPos(p, toks, i), toks[0];
    var toks' := toks[i := Prop(toks[i].pname, data)];
    if i == 0 {
      PropEdited(a, k, p, t.pname, t.data, data);
      RestFrame(a, Patch(a, p + 12, data), p + 12, p + 12 + |data|, k, TokEnd(p, t), toks[1..]);
      assert toks'[1..] == toks[1..];
    } else {
      EditEncoded(a, k, TokEnd(p, t), toks[1..], i - 1, data);
      TokFrame(a, Patch(a, pos + 12, data), pos + 12, pos + 12 + |data|, k, p, t);
      assert toks'[1..] == toks[1..][i - 1 := Prop(toks[i].pname, data)];
    }
  }

  /** The new data: the string, then zeros to the old length. */
  function Padded(s: seq<byte>, n: nat): (d: seq<byte>)
    requires |s| <= n
    ensures |d| == n
  {
    s + Zeros(n - |s|)
  }

  lemma EditedBlob(a: seq<byte>, k: Block, toks: seq<Tok>, i: nat, data: seq<byte>)
    requires Blob(a, k, toks) && i < |toks| && toks[i].Prop? && |data| == |toks[i].data|
    requires NamesOff(a, k, k.lo, toks, TokPos(k.lo, toks, i) + 12, TokPos(k.lo, toks, i) + 12 + |data|)
    ensures var pos := TokPos(k.lo, toks, i);
            && k.lo <= pos && pos + 12 + |data| <= k.hi
            && Blob(Patch(a, pos + 12, data), k, toks[i := Prop(toks[i].pname, data)])
            && SameBut(a, Patch(a, pos + 12, data), pos + 12, pos + 12 + |data|)
  {
    hide Encoded, Be32, Patch, SameBut;
    EditEncoded(a, k, k.lo, toks, i, data);
    var pos := TokPos(k.lo, toks, i);
    var b := Patch(a, pos + 12, data);
    SameWord(a, b, pos + 12, pos + 12 + |data|, 0);
    SameWord(a, b, pos + 12, pos + 12 + |data|, 8);
    SameWord(a, b, pos + 12, pos + 12 + |data|, 12);
  }

  // ---------- the loop ----------

  datatype Move = Go(q: nat, depth: int, inChosen: bool) | Hit(data: nat, len: nat) | Stop(code: int)

  datatype Next = Enter(depth: int, inChosen: bool) | Here | NotThere | Broken

  function Transition(t: Tok, depth: int, inChosen: bool): Next {
    match t
    case Begin(name) => Enter(depth + 1, depth + 1 > 1 && name == CHOSEN)
    case EndNode => if depth - 1 < 0 then Broken else if depth - 1 == 0 then NotThere else Enter(depth - 1, false)
    case Prop(pname, _) => if inChosen && pname == BOOTARGS then Here else Enter(depth, inChosen)
    case Nop => Enter(depth, inChosen)
    case Done => NotThere
    case Bad(_) => Broken
  }

  lemma LocateFront(toks: seq<Tok>, depth: int, inChosen: bool, i: nat)
    requires toks != []
    ensures Locate(toks, depth, inChosen, i) ==
              match Transition(toks[0], depth, inChosen)
              case Enter(d, c) => Locate(toks[1..], d, c, i + 1)
              case Here => At(i)
              case NotThere => Missing
              case Broken => Malformed
  {
  }

  /** One token of the editing loop. */
  method EditStep(b: seq<byte>, p: nat, strs: nat, depth: int, inChosen: bool, ghost k: Block, ghost t: Tok)
    returns (m: Move)
    requires TokAt(b, k, p, t) && strs == k.strs
    ensures m.Go? ==> !Stops(t) && m.q == TokEnd(p, t)
    ensures m.Hit? ==> t.Prop? && t.pname == BOOTARGS && m.data == p + 12 && m.len == |t.data|
    ensures Transition(t, depth, inChosen) ==
              match m
              case Go(_, d, c) => Enter(d, c)
              case Hit(_, _) => Here
              case Stop(code) => if code == 0 then NotThere else Broken
    ensures m.Stop? ==> m.code == 0 || m.code == -3
  {
    hide Be32, StringAt, Align4;
    var token := Be32(b, p);
    var q := p + 4;
    if token == BEGIN_NODE {
      var named := StrEq(b, q, CHOSEN, t.name);
      q := SkipName(b, q, t.name);
      m := Go(q, depth + 1, depth + 1 > 1 && named);
    } else if token == END_NODE {
      if depth - 1 < 0 {
        m := Stop(-3);
      } else if depth - 1 == 0 {
        m := Stop(0);
      } else {
        m := Go(q, depth - 1, false);
      }
    } else if token == PROP {
      var len, nameoff := Be32(b, q), Be32(b, q + 4);
      q := q + 8;
      var named := false;
      if inChosen {
        named := StrEq(b, strs + nameoff, BOOTARGS, t.pname);
      }
      if named {
        m := Hit(q, len);
      } else {
        AlignAdd(q, len);
        m := Go(q + Align4(len), depth, inChosen);
      }
    } else if token == NOP {
      m := Go(q, depth, inChosen);
    } else if token == END {
      m := Stop(0);
    } else {
      m := Stop(-3);
    }
  }

  lemma AlignAdd(p: nat, len: nat)
    requires p % 4 == 0
    ensures p + Align4(len) == Align4(p + len)
  {
  }

  method StoreArgs(b: array<byte>, p: nat, len: nat, s: seq<byte>)
    requires p + len <= b.Length && |s| <= len
    modifies b
    ensures b[..] == Patch(old(b[..]), p, Padded(s, len))
  {
    ghost var was := b[..];
    for i := 0 to len
      invariant forall j :: 0 <= j < b.Length ==> b[j] == if p <= j < p + i then Padded(s, len)[j - p] else was[j]
    {
      b[p + i] := if i < |s| then s[i] else 0;
    }
  }

  /** No property name reaches into the data that is edited. */
  ghost predicate ArgsClear(a: seq<byte>, k: Block, toks: seq<Tok>) {
    match Locate(toks, 0, false, 0)
    case At(i) =>
      i < |toks| && toks[i].Prop? ==>
        NamesOff(a, k, k.lo, toks, TokPos(k.lo, toks, i) + 12, TokPos(k.lo, toks, i) + 12 + |toks[i].data|)
    case _ => true
  }

  /** What an edit of the blob leaves. */
  ghost predicate EditResult(a: seq<byte>, b: seq<byte>, k: Block, toks: seq<Tok>, s: seq<byte>, r: int)
    requires Blob(a, k, toks)
  {
    match Locate(toks, 0, false, 0)
    case At(i) =>
      && i < |toks| && toks[i].Prop? && toks[i].pname == BOOTARGS
      && (if |s| <= |toks[i].data| then
            var data, pos := Padded(s, |toks[i].data|), TokPos(k.lo, toks, i) + 12;
            && r == 1 && pos + |data| <= |a| && b == Patch(a, pos, data)
            && (ArgsClear(a, k, toks) ==> Blob(b, k, toks[i := Prop(BOOTARGS, data)]))
          else r == -2 && b == a)
    case Missing => r == 0 && b == a
    case Malformed => r == -3 && b == a
  }

  /** The walk to the property: where its data is, or the code to return. */
  method FindSlot(b: seq<byte>, ghost k: Block, ghost toks: seq<Tok>) returns (m: Move)
    requires Blob(b, k, toks)
    ensures match Locate(toks, 0, false, 0)
            case At(i) => && i < |toks| && toks[i].Prop? && toks[i].pname == BOOTARGS
                          && m == Hit(TokPos(k.lo, toks, i) + 12, |toks[i].data|) && m.data + m.len <= |b|
            case Missing => m == Stop(0)
            case Malformed => m == Stop(-3)
  {
    hide TokAt, Locate, Be32, Encoded, Terminated, TokPos, Transition;
    var p, strs := Be32(b, 8), Be32(b, 12);
    var depth, inChosen := 0, false;
    ghost var i: nat := 0;
    TerminatedSome(toks);
    PosStart(k.lo, toks);
    assert toks[0..] == toks;
    while true
      invariant i < |toks| && Encoded(b, k, p, toks[i..]) && Terminated(toks[i..]) && p == TokPos(k.lo, toks, i)
      invariant Locate(toks[i..], depth, inChosen, i) == Locate(toks, 0, false, 0)
      decreases |toks| - i
    {
      Front(b, k, p, toks[i..]);
      PropBytes(b, k, p, toks[i]);
      LocateFront(toks[i..], depth, inChosen, i);
      m := EditStep(b, p, strs, depth, inChosen, k, toks[i]);
      if !m.Go? {
        return;
      }
      PosNext(k.lo, toks, i);
      assert toks[i..][1..] == toks[i + 1..];
      p, depth, inChosen, i := m.q, m.depth, m.inChosen, i + 1;
      TerminatedSome(toks[i..]);
    }
  }

  /** `bx_fdt_overwrite_bootargs`. */
  method OverwriteBootargs(b: array<byte>, s: seq<byte>, ghost k: Block, ghost toks: seq<Tok>) returns (r: int)
    requires 4 <= b.Length && (Be32(b[..], 0) == MAGIC ==> Blob(b[..], k, toks))
    modifies b
    ensures Be32(old(b[..]), 0) != MAGIC ==> r == -3 && b[..] == old(b[..])
    ensures Be32(old(b[..]), 0) == MAGIC ==> EditResult(old(b[..]), b[..], k, toks, s, r)
  {
    hide Locate, Be32, Encoded, Terminated, Padded, TokPos, Patch, NamesOff;
    ghost var a := b[..];
    if Be32(b[..], 0) != MAGIC {
      return -3;
    }
    var m := FindSlot(b[..], k, toks);
    match m {
      case Stop(code) => return code;
      case Hit(data, len) =>
        if |s| > len {
          return -2;
        }
        StoreArgs(b, data, len, s);
        if ArgsClear(a, k, toks) {
          EditedBlob(a, k, toks, Locate(toks, 0, false, 0).i, Padded(s, len));
        }
        return 1;
    }
  }

  lemma PosStart(p: nat, toks: seq<Tok>)
    ensures TokPos(p, toks, 0) == p
  {
  }

  lemma {:induction false} PosNext(p: nat, toks: seq<Tok>, i: nat)
    requires i < |toks|
    ensures TokPos(p, toks, i + 1) == TokEnd(TokPos(p, toks, i), toks[i])
    decreases i
  {
    if i != 0 {
      PosNext(TokEnd(p, toks[0]), toks[1..], i - 1);
    }
  }

  // ---------- set, then get ----------

  /** A string cut from its padded form is the string, when it fits. */
  lemma {:induction false} CutPadded(s: seq<byte>, n: nat, max: nat)
    requires |s| <= n && |s| <= max && 0 !in s
    ensures CutLen(Padded(s, n), max) == |s|
  {
    var d := Padded(s, n);
    if s == [] {
      assert d == Zeros(n);
    } else {
      assert d[0] == s[0] && s[0] in s;
      assert d[1..] == Padded(s[1..], n - 1);
      CutPadded(s[1..], n - 1, max - 1);
    }
  }

  /** The edited blob is that of the same tree with only the data of the writer's property replaced. */
  lemma TreeEdited(a: seq<byte>, b: seq<byte>, k: Block, root: Node, before: nat, after: nat, s: seq<byte>, r: int)
    requires TreeBlob(a, k, root, before, after) && EditResult(a, b, k, Stream(root, before, after), s, r)
    ensures match WriterArgs(root.items, false)
            case None => r == 0 && b == a
            case Some(was) =>
              if |s| > |was| then r == -2 && b == a
              else && r == 1 && (exists pos: nat :: k.lo <= pos && OnlyData(a, b, k, pos, was, s))
                   && (ArgsClear(a, k, Stream(root, before, after)) ==>
                         TreeBlob(b, k, Node(root.name, WriterSet(root.items, false, Padded(s, |was|))), before, after))
  {
    hide Encoded, Terminated, Locate, Stream, WriterArgs, WriterSet, Padded, Patch, TokPos, ArgsClear, TokAt;
    var toks := Stream(root, before, after);
    if WriterArgs(root.items, false).Some? {
      var was := WriterArgs(root.items, false).value;
      if |s| <= |was| {
        var data := Padded(s, |was|);
        var j := WriteRight(root, before, after, data);
        PropAt(a, k, k.lo, toks, j);
        assert OnlyData(a, b, k, TokPos(k.lo, toks, j) + 12, was, s);
      } else {
        var j := WriteRight(root, before, after, []);
      }
    } else {
      var j := WriteRight(root, before, after, []);
    }
  }

  /** Exactly the old data, in one place of the structure block, became the string and its padding. */
  ghost predicate OnlyData(a: seq<byte>, b: seq<byte>, k: Block, pos: nat, was: seq<byte>, s: seq<byte>) {
    && |s| <= |was| && pos + |was| <= k.hi && pos + |was| <= |a| && a[pos..pos + |was|] == was
        && b == Patch(a, pos, Padded(s, |was|))
  }

  /** Overwrite the boot arguments in the blob of any tree, then read them: the string comes back where the two
      programs meet, and otherwise the reader gives what it gave before. */
  method SetThenGet(b: array<byte>, s: seq<byte>, out: array<byte>, cap: nat, ghost k: Block, ghost root: Node,
                    ghost before: nat, ghost after: nat)
    returns (set_: int, get: int)
    requires TreeBlob(b[..], k, root, before, after) && ArgsClear(b[..], k, Stream(root, before, after)) && 0 !in s
    requires |s| < cap <= out.Length && out != b && 4 <= b.Length
    modifies b, out
    ensures set_ == match WriterArgs(root.items, false) case None => 0 case Some(was) => if |s| > |was| then -2 else 1
    ensures set_ != 1 ==> b[..] == old(b[..])
    ensures set_ == 1 ==>
              var was := WriterArgs(root.items, false).value;
              && TreeBlob(b[..], k, Node(root.name, WriterSet(root.items, false, Padded(s, |was|))), before, after)
              && (exists pos: nat :: k.lo <= pos && OnlyData(old(b[..]), b[..], k, pos, was, s))
    ensures if set_ == 1 && SameSpot(root.items)
            then out[..|s|] == s && out[|s|] == 0 && get == if s == [] then -3 else 0
            else ArgsResult(ArgsOf(ChosenArgs(root.items)), cap, get, out[..])
  {
    hide Encoded, Terminated, Stream, ChosenArgs, Padded, WriterArgs, WriterSet, SameSpot, Be32, EditResult, OnlyData,
         CutLen, ArgsClear;
    ghost var a := b[..];
    set_ := OverwriteBootargs(b, s, k, Stream(root, before, after));
    TreeEdited(a, b[..], k, root, before, after, s, set_);
    ghost var after' := root;
    if set_ == 1 {
      ghost var was := WriterArgs(root.items, false).value;
      ghost var data := Padded(s, |was|);
      after' := Node(root.name, WriterSet(root.items, false, data));
      ReadAfterWrite(root.items, data);
      CutPadded(s, |was|, cap - 1);
      PaddedPrefix(s, |was|);
    }
    get := GetTreeBootargs(b[..], out, cap, k, after', before, after);
  }

  lemma PaddedPrefix(s: seq<byte>, n: nat)
    requires |s| <= n
    ensures Padded(s, n)[..|s|] == s
  {
  }
}
