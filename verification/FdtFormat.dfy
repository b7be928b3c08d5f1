/**
  Flattening: the blob of a device tree written out as chapter 5 of the Devicetree Specification v0.4 lays it out,
  token values and header fields by number. Every tree that fits has a blob, and the readers get the tree back.
  */
module FdtFormat {
  import opened Bytes
  import opened Layout
  import opened UserMemory
  import opened Fdt
  import opened FdtTree
  import opened FdtChosen
  import opened FdtWalk
  import opened FdtEdit

  // ---------- tokens ----------

  /** Zeros up to the next multiple of four. */
  function Padding(n: nat): (b: seq<byte>)
    ensures (n + |b|) % 4 == 0 && |b| < 4
  {
    Zeros((4 - n % 4) % 4)
  }

  /** One token; `nameOff` is where a property's name stands in the strings block. */
  function TokBytes(t: Tok, nameOff: nat): (b: seq<byte>)
    ensures |b| % 4 == 0 && 4 <= |b|
  {
    match t
    case Begin(name) => BeBytes(4, 1) + name + [0] + Padding(|name| + 1)
    case EndNode => BeBytes(4, 2)
    case Prop(_, data) => BeBytes(4, 3) + BeBytes(4, |data|) + BeBytes(4, nameOff) + data + Padding(|data|)
    case Nop => BeBytes(4, 4)
    case Done => BeBytes(4, 9)
    case Bad(word) => BeBytes(4, word)
  }

  function TokStrings(t: Tok): seq<byte> {
    if t.Prop? then t.pname + [0] else []
  }

  function StructBlock(toks: seq<Tok>, nameOff: nat): seq<byte> {
    if toks == [] then [] else TokBytes(toks[0], nameOff) + StructBlock(toks[1..], nameOff + |TokStrings(toks[0])|)
  }

  function StringsBlock(toks: seq<Tok>): seq<byte> {
    if toks == [] then [] else TokStrings(toks[0]) + StringsBlock(toks[1..])
  }

  // ---------- the blob ----------

  datatype FdtField =
    | Magic | TotalSize | OffStruct | OffStrings | OffReserve | Version | LastComp | BootCpu | SizeStrings | SizeStruct

  const FDT_HEADER: seq<Slot<FdtField>> := [
    Slot(Magic, 4), Slot(TotalSize, 4), Slot(OffStruct, 4), Slot(OffStrings, 4), Slot(OffReserve, 4), Slot(Version, 4),
    Slot(LastComp, 4), Slot(BootCpu, 4), Slot(SizeStrings, 4), Slot(SizeStruct, 4)]

  lemma HeaderStarts()
    ensures |FDT_HEADER| == 10 && Start(FDT_HEADER, 10) == 40
    ensures Start(FDT_HEADER, 0) == 0 && Start(FDT_HEADER, 2) == 8 && Start(FDT_HEADER, 3) == 12
  {
    assert Start(FDT_HEADER, 4) == 16 && Start(FDT_HEADER, 7) == 28;
  }

  /** The header of a blob: the reservation block of one empty entry, the structure block, the strings block. */
  function HeaderValue(structSize: nat, stringsSize: nat, f: FdtField): nat {
    match f
    case Magic => 0xd00d_feed
    case TotalSize => 56 + structSize + stringsSize
    case OffStruct => 56
    case OffStrings => 56 + structSize
    case OffReserve => 40
    case Version => 17
    case LastComp => 16
    case BootCpu => 0
    case SizeStrings => stringsSize
    case SizeStruct => structSize
  }

  ghost function FdtHeader(structSize: nat, stringsSize: nat): (b: seq<byte>)
    ensures |b| == 40
  {
    HeaderStarts();
    PackBe(FDT_HEADER, f => HeaderValue(structSize, stringsSize, f))
  }

  ghost function Flat(toks: seq<Tok>): seq<byte> {
    var s, t := StructBlock(toks, 0), StringsBlock(toks);
    FdtHeader(|s|, |t|) + Zeros(16) + s + t
  }

  function FlatBlock(toks: seq<Tok>): Block {
    var n := |StructBlock(toks, 0)|;
    Block(56, 56 + n, 56 + n)
  }

  /** What a token can say: names without NUL, data and words of 32 bits. */
  predicate PlainTok(t: Tok) {
    match t
    case Begin(name) => 0 !in name
    case Prop(pname, data) => 0 !in pname && |data| < TWO32
    case Bad(word) => word < TWO32 && word !in {1, 2, 3, 4, 9}
    case _ => true
  }

  predicate PlainToks(toks: seq<Tok>) {
    forall t :: t in toks ==> PlainTok(t)
  }

  // ---------- reading it back ----------

  lemma TokLength(p: nat, t: Tok, nameOff: nat)
    requires p % 4 == 0
    ensures TokEnd(p, t) == p + |TokBytes(t, nameOff)|
  {
    hide BeBytes, Zeros;
    match t
    case Begin(name) => PaddedLength(p + 4, |name| + 1);
    case Prop(_, data) => PaddedLength(p + 12, |data|);
    case _ =>
  }

  lemma PaddedLength(p: nat, n: nat)
    requires p % 4 == 0
    ensures Align4(p + n) == p + n + |Padding(n)|
  {
  }

  lemma WordHere(b: seq<byte>, o: nat, w: seq<byte>, at: nat, v: nat)
    requires o + |w| <= |b| && b[o..o + |w|] == w && at + 4 <= |w| && v < TWO32 && w[at..at + 4] == BeBytes(4, v)
    ensures Be32(b, o + at) == v
  {
    hide Be32, BeBytes;
    SubSlice(b, o, w, at, 4);
    ReadFour(b, o + at, v);
  }

  /** A name and its terminator. */
  lemma StringHere(b: seq<byte>, o: nat, s: seq<byte>)
    requires o + |s| + 1 <= |b| && b[o..o + |s| + 1] == s + [0] && 0 !in s
    ensures StringAt(b, o, s)
  {
    forall i | 0 <= i < |s| ensures CharAt(b, o, s, i) {
      assert b[o..o + |s| + 1][i] == b[o + i] && (s + [0])[i] == s[i];
      assert s[i] in s;
    }
    assert b[o..o + |s| + 1][|s|] == b[o + |s|];
  }

  lemma PropParts(n: seq<byte>, o: seq<byte>, data: seq<byte>, pad: seq<byte>)
    requires |n| == 4 && |o| == 4
    ensures var w := BeBytes(4, 3) + n + o + data + pad;
            w[0..4] == BeBytes(4, 3) && w[4..8] == n && w[8..12] == o && w[12..12 + |data|] == data
  {
    hide BeBytes;
    var a := BeBytes(4, 3);
    assert a + n + o + data + pad == a + (n + (o + (data + pad)));
  }

  lemma NodeParts2(name: seq<byte>, pad: seq<byte>)
    ensures var w := BeBytes(4, 1) + name + [0] + pad;
            w[0..4] == BeBytes(4, 1) && w[4..4 + |name| + 1] == name + [0]
  {
    hide BeBytes;
    var a := BeBytes(4, 1);
    assert a + name + [0] + pad == a + ((name + [0]) + pad);
  }

  /** One token of the blob. */
  lemma FlatTok(b: seq<byte>, k: Block, p: nat, t: Tok, off: nat)
    requires PlainTok(t) && p % 4 == 0 && k.lo <= p && k.hi <= |b| < TWO32
    requires p + |TokBytes(t, off)| <= k.hi && b[p..p + |TokBytes(t, off)|] == TokBytes(t, off)
    requires k.strs + off + |TokStrings(t)| <= |b|
    requires b[k.strs + off..k.strs + off + |TokStrings(t)|] == TokStrings(t)
    ensures TokAt(b, k, p, t)
  {
    hide Be32, BeBytes, StringAt, TokEnd, Padding;
    TokLength(p, t, off);
    match t
    case Begin(name) => FlatBegin(b, p, name, off);
    case Prop(pname, data) =>
      FlatProp(b, p, pname, data, off);
      StringHere(b, k.strs + off, pname);
    case EndNode => FlatWord(b, p, 2);
    case Nop => FlatWord(b, p, 4);
    case Done => FlatWord(b, p, 9);
    case Bad(word) => FlatWord(b, p, word);
  }

  lemma FlatBegin(b: seq<byte>, p: nat, name: seq<byte>, off: nat)
    requires 0 !in name && var w := TokBytes(Begin(name), off); p + |w| <= |b| && b[p..p + |w|] == w
    ensures p + 4 + |name| < |b| && Be32(b, p) == 1 && StringAt(b, p + 4, name)
  {
    hide Be32, BeBytes, StringAt, Padding;
    var w := TokBytes(Begin(name), off);
    NodeParts2(name, Padding(|name| + 1));
    WordHere(b, p, w, 0, 1);
    SubSlice(b, p, w, 4, |name| + 1);
    StringHere(b, p + 4, name);
  }

  lemma FlatProp(b: seq<byte>, p: nat, pname: seq<byte>, data: seq<byte>, off: nat)
    requires |data| < TWO32 && off < TWO32
    requires var w := TokBytes(Prop(pname, data), off); p + |w| <= |b| && b[p..p + |w|] == w
    ensures p + 12 + |data| <= |b| && b[p + 12..p + 12 + |data|] == data
    ensures Be32(b, p) == 3 && Be32(b, p + 4) == |data| && Be32(b, p + 8) == off
  {
    hide Be32, BeBytes, Padding;
    var w := TokBytes(Prop(pname, data), off);
    PropParts(BeBytes(4, |data|), BeBytes(4, off), data, Padding(|data|));
    WordHere(b, p, w, 0, 3);
    WordHere(b, p, w, 4, |data|);
    WordHere(b, p, w, 8, off);
    SubSlice(b, p, w, 12, |data|);
  }

  lemma FlatWord(b: seq<byte>, p: nat, v: nat)
    requires v < TWO32 && p + 4 <= |b| && b[p..p + 4] == BeBytes(4, v)
    ensures Be32(b, p) == v
  {
    hide Be32, BeBytes;
    ReadFour(b, p, v);
  }

  lemma FrontOf(b: seq<byte>, o: nat, x: seq<byte>, y: seq<byte>)
    requires o + |x| + |y| <= |b| && b[o..o + |x| + |y|] == x + y
    ensures b[o..o + |x|] == x && b[o + |x|..o + |x| + |y|] == y
  {
    SubSlice(b, o, x + y, 0, |x|);
    SubSlice(b, o, x + y, |x|, |y|);
  }

  lemma {:induction false} FlatEncoded(b: seq<byte>, k: Block, p: nat, toks: seq<Tok>, off: nat)
    requires PlainToks(toks) && p % 4 == 0 && k.lo <= p && p + |StructBlock(toks, off)| == k.hi <= |b| < TWO32
    requires b[p..k.hi] == StructBlock(toks, off)
    requires k.strs + off + |StringsBlock(toks)| <= |b|
    requires b[k.strs + off..k.strs + off + |StringsBlock(toks)|] == StringsBlock(toks)
    ensures Encoded(b, k, p, toks)
    decreases |toks|
  {
    hide TokBytes, TokStrings, TokAt;
    if toks != [] {
      var t, rest := toks[0], toks[1..];
      var w, n := TokBytes(t, off), TokStrings(t);
      assert t in toks && forall x :: x in rest ==> x in toks;
      FrontOf(b, p, w, StructBlock(rest, off + |n|));
      FrontOf(b, k.strs + off, n, StringsBlock(rest));
      FlatTok(b, k, p, t, off);
      TokLength(p, t, off);
      FlatEncoded(b, k, p + |w|, rest, off + |n|);
    }
  }

  lemma FourBlocks(h: seq<byte>, r: seq<byte>, s: seq<byte>, t: seq<byte>)
    requires |h| == 40 && |r| == 16
    ensures var b := h + r + s + t;
            && b[0..40] == h && b[56..56 + |s|] == s && b[56 + |s|..56 + |s| + |t|] == t
            && |b| == 56 + |s| + |t|
  {
    assert h + r + s + t == h + (r + (s + t));
  }

  /** Every token stream that fits in a blob has one: the flattened stream. */
  lemma FlatBlob(toks: seq<Tok>)
    requires Terminated(toks) && PlainToks(toks) && |Flat(toks)| < TWO32
    ensures Blob(Flat(toks), FlatBlock(toks), toks)
  {
    hide FdtHeader, StructBlock, StringsBlock, Encoded, Terminated, Be32;
    var s, t := StructBlock(toks, 0), StringsBlock(toks);
    var b, k := Flat(toks), FlatBlock(toks);
    FourBlocks(FdtHeader(|s|, |t|), Zeros(16), s, t);
    FlatEncoded(b, k, 56, toks, 0);
    HeaderHere(b, |s|, |t|);
  }

  lemma HeaderHere(b: seq<byte>, structSize: nat, stringsSize: nat)
    requires 56 + structSize + stringsSize == |b| < TWO32 && b[0..40] == FdtHeader(structSize, stringsSize)
    ensures Be32(b, 0) == MAGIC && Be32(b, 8) == 56 && Be32(b, 12) == 56 + structSize
  {
    hide Be32, Start, Packed;
    HeaderStarts();
    var v := f => HeaderValue(structSize, stringsSize, f);
    assert Holds(b, 0, FDT_HEADER, v, true);
    ReadSlot(b, 0, FDT_HEADER, v, true, 0);
    ReadSlot(b, 0, FDT_HEADER, v, true, 2);
    ReadSlot(b, 0, FDT_HEADER, v, true, 3);
  }

  // ---------- whole trees ----------

  /** The writer's edit of a blob whose strings stand behind its structure block cannot reach a name. */
  lemma {:induction false} NamesBehind(b: seq<byte>, k: Block, p: nat, toks: seq<Tok>, x: nat, y: nat)
    requires y <= k.strs
    ensures NamesOff(b, k, p, toks, x, y)
    decreases |toks|
  {
    hide Be32, TokEnd;
    if toks != [] {
      NamesBehind(b, k, TokEnd(p, toks[0]), toks[1..], x, y);
    }
  }

  lemma {:induction false} PropInside(b: seq<byte>, k: Block, p: nat, toks: seq<Tok>, i: nat)
    requires Encoded(b, k, p, toks) && i < |toks| && toks[i].Prop?
    ensures TokPos(p, toks, i) + 12 + |toks[i].data| <= k.hi
    decreases |toks|
  {
    hide Be32, StringAt;
    if i != 0 {
      PropInside(b, k, TokEnd(p, toks[0]), toks[1..], i - 1);
    }
  }

  lemma FlatClear(toks: seq<Tok>)
    requires Blob(Flat(toks), FlatBlock(toks), toks)
    ensures ArgsClear(Flat(toks), FlatBlock(toks), toks)
  {
    hide Be32, Encoded, Flat, StructBlock, Terminated, ArgsClear;
    BehindClear(Flat(toks), FlatBlock(toks), toks);
  }

  lemma BehindClear(b: seq<byte>, k: Block, toks: seq<Tok>)
    requires Encoded(b, k, k.lo, toks) && k.hi <= k.strs
    ensures ArgsClear(b, k, toks)
  {
    hide Encoded, Locate, NamesOff, TokPos;
    match Locate(toks, 0, false, 0)
    case At(i) =>
      if i < |toks| && toks[i].Prop? {
        PropInside(b, k, k.lo, toks, i);
        var x := TokPos(k.lo, toks, i) + 12;
        NamesBehind(b, k, k.lo, toks, x, x + |toks[i].data|);
      }
    case _ =>
  }

  predicate PlainNode(n: Node)
    decreases n
  {
    0 !in n.name && PlainItems(n.items)
  }

  predicate PlainItems(it: Items)
    decreases it
  {
    match it
    case Nil => true
    case AProp(pname, data, rest) => 0 !in pname && |data| < TWO32 && PlainItems(rest)
    case AChild(child, rest) => PlainNode(child) && PlainItems(rest)
    case ANop(rest) => PlainItems(rest)
  }

  lemma {:induction false} NodeToks(n: Node)
    requires PlainNode(n)
    ensures forall t :: t in Tokens(n) ==> PlainTok(t) && !Stops(t)
    decreases n
  {
    ItemToks(n.items);
  }

  lemma {:induction false} ItemToks(it: Items)
    requires PlainItems(it)
    ensures forall t :: t in ItemTokens(it) ==> PlainTok(t) && !Stops(t)
    decreases it
  {
    match it
    case Nil =>
    case AProp(_, _, rest) => ItemToks(rest);
    case AChild(child, rest) =>
      NodeToks(child);
      ItemToks(rest);
    case ANop(rest) => ItemToks(rest);
  }

  ghost function Flattened(root: Node, before: nat, after: nat): seq<byte> {
    Flat(Stream(root, before, after))
  }

  /** Every tree with plain names that fits has a blob on which the three programs are specified. */
  lemma TreeFlattens(root: Node, before: nat, after: nat)
    requires PlainNode(root) && |Flattened(root, before, after)| < TWO32
    ensures var toks, b := Stream(root, before, after), Flattened(root, before, after);
            TreeBlob(b, FlatBlock(toks), root, before, after) && ArgsClear(b, FlatBlock(toks), toks)
  {
    hide Tokens, Flat, Encoded, FlatBlock, ArgsClear, PlainTok;
    var toks := Stream(root, before, after);
    NodeToks(root);
    StreamPlain(root, before, after);
    FlatBlob(toks);
    FlatClear(toks);
  }

  lemma StreamPlain(root: Node, before: nat, after: nat)
    requires forall t :: t in Tokens(root) ==> PlainTok(t) && !Stops(t)
    ensures Terminated(Stream(root, before, after)) && PlainToks(Stream(root, before, after))
  {
    hide Tokens;
    var toks := Stream(root, before, after);
    forall i | 0 <= i < |toks| - 1 ensures !Stops(toks[i]) {
      assert toks[i] in Nops(before) || toks[i] in Tokens(root) || toks[i] in Nops(after);
    }
  }

  // ---------- a small tree ----------

  /** A board with boot arguments, two processors and a device that is none. */
  function SmallTree(): Node {
    var cpu := AProp(Lit("device_type"), Lit("cpu") + [0], AProp(Lit("reg"), Zeros(4), Nil));
    var soc := AProp(Lit("device_type"), Lit("soc") + [0], Nil);
    var cpus := AChild(Node(Lit("cpu@0"), cpu), AChild(Node(Lit("cpu@1"), cpu), Nil));
    Node([], AChild(Node(Lit("chosen"), AProp(Lit("bootargs"), Lit("-v") + [0], Nil)),
                    AChild(Node(Lit("cpus"), cpus), AChild(Node(Lit("soc"), soc), Nil))))
  }

  lemma NamesSpelt()
    ensures CHOSEN == Lit("chosen") && BOOTARGS == Lit("bootargs") && DEVICE_TYPE == Lit("device_type")
    ensures CPU == Lit("cpu") + [0] && Lit("soc")[0] != CPU[0]
  {
  }

  lemma SmallFacts()
    ensures PlainNode(SmallTree()) && CpuNodes(SmallTree()) == 2 && Depth(SmallTree()) <= 32
    ensures ChosenArgs(SmallTree().items) == Some(Lit("-v") + [0])
  {
    hide Lit;
    NamesSpelt();
    SpelledApart();
    var cpu := AProp(Lit("device_type"), Lit("cpu") + [0], AProp(Lit("reg"), Zeros(4), Nil));
    var soc := AProp(Lit("device_type"), Lit("soc") + [0], Nil);
    assert (Lit("cpu") + [0])[..4] == CPU && (Lit("soc") + [0])[..4][0] != CPU[0];
    assert HasCpu(cpu) && !HasCpu(soc);
    assert CpuNodes(Node(Lit("cpu@0"), cpu)) == 1 && CpuNodes(Node(Lit("cpu@1"), cpu)) == 1;
    assert CpuNodes(Node(Lit("soc"), soc)) == 0;
    var cpus := AChild(Node(Lit("cpu@0"), cpu), AChild(Node(Lit("cpu@1"), cpu), Nil));
    assert CpuNodes(Node(Lit("cpus"), cpus)) == 2;
  }

  lemma SpelledApart()
    ensures 0 !in Lit("chosen") && 0 !in Lit("bootargs") && 0 !in Lit("device_type") && 0 !in Lit("reg")
    ensures 0 !in Lit("cpus") && 0 !in Lit("cpu@0") && 0 !in Lit("cpu@1") && 0 !in Lit("soc")
    ensures |Lit("soc")| == |Lit("cpu")| == 3 && |Lit("reg")| == 3 && |Lit("device_type")| == 11
  {
  }

  /** The two readers on the small tree. */
  method ReadSmall(b: seq<byte>, out: array<byte>) returns (cpus: nat, r: int)
    requires b == Flattened(SmallTree(), 0, 0) && |b| < TWO32 && 16 <= out.Length
    modifies out
    ensures cpus == 2 && r == 0 && out[0] == '-' as int && out[1] == 'v' as int && out[2] == 0
  {
    hide Flattened, Encoded, SmallTree, CpuNodes, Depth, ChosenArgs, CutLen, Lit, TreeBlob;
    ghost var k := FlatBlock(Stream(SmallTree(), 0, 0));
    SmallFacts();
    TreeFlattens(SmallTree(), 0, 0);
    cpus := CountTreeCpus(b, k, SmallTree(), 0, 0);
    r := GetTreeBootargs(b, out, 16, k, SmallTree(), 0, 0);
    DashV();
    assert out[..2][0] == out[0] && out[..2][1] == out[1];
  }

  lemma DashV()
    ensures var d := Lit("-v") + [0]; CutLen(d, 15) == 2 && d[..2] == [45, 118]
  {
    hide CutLen;
    var d := Lit("-v") + [0];
    assert d[0] == 45 && d[1] == 118 && d[2] == 0;
  }
}
