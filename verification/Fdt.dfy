/**
  Flattened device trees: the token stream of the structure block (section 5.4 of the Devicetree
  Specification v0.4), the trees it stands for, and the parts the three walkers share.
  The blob is taken to start at a 4-byte aligned address, so offsets are aligned like addresses.
  */
module Fdt {
  import opened Bytes

  const MAGIC := 0xd00d_feed
  const BEGIN_NODE := 1
  const END_NODE := 2
  const PROP := 3
  const NOP := 4
  const END := 9

  const CHOSEN: seq<byte> := [99, 104, 111, 115, 101, 110]
  const BOOTARGS: seq<byte> := [98, 111, 111, 116, 97, 114, 103, 115]
  const DEVICE_TYPE: seq<byte> := [100, 101, 118, 105, 99, 101, 95, 116, 121, 112, 101]
  const CPU: seq<byte> := [99, 112, 117, 0]

  /** `Bad` is any word that is no token. */
  datatype Tok =
    Begin(name: seq<byte>) | EndNode | Prop(pname: seq<byte>, data: seq<byte>) | Nop | Done | Bad(word: nat)

  /** The structure block `[lo, hi)` and the start of the strings block. */
  datatype Block = Block(lo: nat, hi: nat, strs: nat)

  // ---------- encoding ----------

  function Align4(x: nat): (r: nat)
    ensures r % 4 == 0 && x <= r < x + 4
  {
    x + (4 - x % 4) % 4
  }

  /** Where the token after `t` starts; padding bytes may hold anything. */
  function TokEnd(p: nat, t: Tok): (q: nat)
    ensures p + 4 <= q
    ensures p % 4 == 0 ==> q % 4 == 0
  {
    match t
    case Begin(name) => Align4(p + 4 + |name| + 1)
    case Prop(_, data) => Align4(p + 12 + |data|)
    case _ => p + 4
  }

  /** A NUL-terminated string at `o`. */
  ghost predicate StringAt(b: seq<byte>, o: nat, s: seq<byte>) {
    && o + |s| < |b| && b[o + |s|] == 0
    && forall i :: 0 <= i < |s| ==> CharAt(b, o, s, i)
  }

  predicate CharAt(b: seq<byte>, o: nat, s: seq<byte>, i: nat)
    requires i < |s| && o + |s| < |b|
  {
    s[i] != 0 && b[o + i] == s[i]
  }

  ghost predicate TokAt(b: seq<byte>, k: Block, p: nat, t: Tok) {
    && k.lo <= p && p % 4 == 0 && TokEnd(p, t) <= k.hi <= |b|
    && match t
       case Begin(name) => Be32(b, p) == BEGIN_NODE && StringAt(b, p + 4, name)
       case EndNode => Be32(b, p) == END_NODE
       case Prop(pname, data) =>
         && Be32(b, p) == PROP && Be32(b, p + 4) == |data|
         && StringAt(b, k.strs + Be32(b, p + 8), pname) && b[p + 12..p + 12 + |data|] == data
       case Nop => Be32(b, p) == NOP
       case Done => Be32(b, p) == END
       case Bad(word) => Be32(b, p) == word && word !in {BEGIN_NODE, END_NODE, PROP, NOP, END}
  }

  /** `toks` is what a reader of the structure block finds from `p` on. */
  ghost predicate Encoded(b: seq<byte>, k: Block, p: nat, toks: seq<Tok>)
    decreases |toks|
  {
    toks != [] ==> TokAt(b, k, p, toks[0]) && Encoded(b, k, TokEnd(p, toks[0]), toks[1..])
  }

  /** A blob: the header points at a structure block that encodes `toks`, whose last token stops every reader. */
  ghost predicate Blob(b: seq<byte>, k: Block, toks: seq<Tok>) {
    && 40 <= k.lo <= k.hi <= |b| && k.lo % 4 == 0
    && Be32(b, 0) == MAGIC && Be32(b, 8) == k.lo && Be32(b, 12) == k.strs
    && Encoded(b, k, k.lo, toks) && Terminated(toks)
  }

  predicate Terminated(toks: seq<Tok>) {
    toks != [] && Stops(toks[|toks| - 1]) && forall i :: 0 <= i < |toks| - 1 ==> !Stops(toks[i])
  }

  predicate Stops(t: Tok) {
    t.Done? || t.Bad?
  }

  /** A reader that has not seen the end has another token before it. */
  lemma TerminatedTail(toks: seq<Tok>)
    requires Terminated(toks)
    ensures !Stops(toks[0]) ==> Terminated(toks[1..])
  {
  }

  // ---------- trees ----------

  datatype Node = Node(name: seq<byte>, items: Items)

  /** What a node holds, in order; no-operation tokens may stand anywhere. */
  datatype Items =
    Nil | AProp(pname: seq<byte>, data: seq<byte>, rest: Items) | AChild(child: Node, rest: Items) | ANop(rest: Items)

  function Tokens(n: Node): seq<Tok>
    decreases n
  {
    [Begin(n.name)] + ItemTokens(n.items) + [EndNode]
  }

  function ItemTokens(it: Items): seq<Tok>
    decreases it
  {
    match it
    case Nil => []
    case AProp(pname, data, rest) => [Prop(pname, data)] + ItemTokens(rest)
    case AChild(child, rest) => Tokens(child) + ItemTokens(rest)
    case ANop(rest) => [Nop] + ItemTokens(rest)
  }

  /** Properties stand before children, as section 5.4.2 of the Devicetree Specification asks. */
  predicate PropsFirst(it: Items) {
    match it
    case Nil => true
    case AProp(_, _, rest) => PropsFirst(rest)
    case AChild(_, rest) => NoProps(rest)
    case ANop(rest) => PropsFirst(rest)
  }

  predicate NoProps(it: Items) {
    match it
    case Nil => true
    case AProp(_, _, _) => false
    case AChild(_, rest) => NoProps(rest)
    case ANop(rest) => NoProps(rest)
  }

  /** The tokens of a list of items in front of others, one item at a time. */
  lemma ItemFront(it: Items, rest: seq<Tok>)
    ensures match it
            case Nil => ItemTokens(it) == [] && ItemTokens(it) + rest == rest
            case AProp(pname, data, more) =>
              && ItemTokens(it) + rest == [Prop(pname, data)] + (ItemTokens(more) + rest)
                  && |ItemTokens(it)| == 1 + |ItemTokens(more)|
              && ([Prop(pname, data)] + (ItemTokens(more) + rest))[1..] == ItemTokens(more) + rest
            case AChild(child, more) =>
              ItemTokens(it) + rest == Tokens(child) + (ItemTokens(more) + rest)
                  && |ItemTokens(it)| == |Tokens(child)| + |ItemTokens(more)|
            case ANop(more) =>
              && ItemTokens(it) + rest == [Nop] + (ItemTokens(more) + rest)
                  && |ItemTokens(it)| == 1 + |ItemTokens(more)|
              && ([Nop] + (ItemTokens(more) + rest))[1..] == ItemTokens(more) + rest
  {
    hide Tokens, ItemTokens;
    ItemParts(it);
    match it
    case Nil =>
    case AProp(pname, data, more) => Assoc([Prop(pname, data)], ItemTokens(more), rest);
    case AChild(child, more) => Assoc(Tokens(child), ItemTokens(more), rest);
    case ANop(more) => Assoc([Nop], ItemTokens(more), rest);
  }

  lemma Assoc(a: seq<Tok>, b: seq<Tok>, c: seq<Tok>)
    ensures (a + b) + c == a + (b + c) && |a + b| == |a| + |b| && (|a| == 1 ==> (a + (b + c))[1..] == b + c)
  {
  }

  lemma ItemParts(it: Items)
    ensures match it
            case Nil => ItemTokens(it) == []
            case AProp(pname, data, more) => ItemTokens(it) == [Prop(pname, data)] + ItemTokens(more)
            case AChild(child, more) => ItemTokens(it) == Tokens(child) + ItemTokens(more)
            case ANop(more) => ItemTokens(it) == [Nop] + ItemTokens(more)
  {
  }

  lemma NodeParts(node: Node)
    ensures Tokens(node) == [Begin(node.name)] + ItemTokens(node.items) + [EndNode]
  {
  }

  lemma NodeFront(node: Node, rest: seq<Tok>)
    ensures Tokens(node) + rest == [Begin(node.name)] + (ItemTokens(node.items) + ([EndNode] + rest))
    ensures ([Begin(node.name)] + (ItemTokens(node.items) + ([EndNode] + rest)))[1..]
        == ItemTokens(node.items) + ([EndNode] + rest)
    ensures ([EndNode] + rest)[1..] == rest && |Tokens(node)| == |ItemTokens(node.items)| + 2
  {
    hide Tokens, ItemTokens;
    NodeParts(node);
    Assoc([Begin(node.name)] + ItemTokens(node.items), [EndNode], rest);
    Assoc([Begin(node.name)], ItemTokens(node.items), [EndNode] + rest);
  }

  function Nops(n: nat): (r: seq<Tok>)
    ensures |r| == n && forall i :: 0 <= i < n ==> r[i] == Nop
  {
    seq(n, i => Nop)
  }

  /** The stream of a whole tree. */
  function Stream(root: Node, before: nat, after: nat): seq<Tok> {
    Nops(before) + Tokens(root) + Nops(after) + [Done]
  }

  // ---------- reading strings ----------

  /** Past the string, its terminator, and the padding to the next word. */
  method SkipName(b: seq<byte>, p: nat, ghost name: seq<byte>) returns (q: nat)
    requires StringAt(b, p, name)
    ensures q == Align4(p + |name| + 1)
  {
    q := p;
    while b[q] != 0
      invariant p <= q <= p + |name|
      decreases p + |name| - q
    {
      assert q < p + |name|;
      q := q + 1;
    }
    assert q < p + |name| ==> CharAt(b, p, name, q - p);
    q := AlignUp(q + 1);
  }

  method AlignUp(p: nat) returns (q: nat)
    ensures q == Align4(p)
  {
    q := p;
    while q % 4 != 0
      invariant p <= q <= Align4(p)
      decreases Align4(p) - q
    {
      q := q + 1;
    }
  }

  /** `streq` against a literal: walk both while they agree and neither ends. */
  method StrEq(b: seq<byte>, o: nat, lit: seq<byte>, ghost s: seq<byte>) returns (eq: bool)
    requires StringAt(b, o, s) && 0 !in lit
    ensures eq <==> s == lit
  {
    var i := 0;
    while b[o + i] != 0 && i < |lit| && b[o + i] == lit[i]
      invariant 0 <= i <= |lit| && i <= |s| && s[..i] == lit[..i]
      decreases |lit| - i
    {
      assert i < |s| && CharAt(b, o, s, i);
      i := i + 1;
    }
    assert i < |s| ==> CharAt(b, o, s, i);
    eq := b[o + i] == 0 && i == |lit|;
    if eq {
      assert i == |s| && s[..i] == s && lit[..i] == lit;
    } else if i < |s| && i < |lit| {
      assert s[i] != lit[i];
    }
  }
}
