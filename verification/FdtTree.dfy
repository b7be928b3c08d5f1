/** The three token loops as functions of the token stream, and what they compute of a tree. */
module FdtTree {
  import opened Bytes
  import opened Fdt

  const STACK := 32

  // ---------- counting processors ----------

  predicate IsCpu(pname: seq<byte>, data: seq<byte>) {
    pname == DEVICE_TYPE && 4 <= |data| && data[..4] == CPU
  }

  /** The loop of `fdt_count_cpus`: a stack of at most 32 flags and a counter. */
  function Count(toks: seq<Tok>, st: seq<bool>, n: nat): nat
    decreases |toks|
  {
    if toks == [] then n
    else
      var top, rest := |st| - 1, toks[1..];
      match toks[0]
      case Begin(_) => Count(rest, if |st| < STACK then st + [false] else st, n)
      case EndNode => if st == [] then Count(rest, st, n) else Count(rest, st[..top], if st[top] then n + 1 else n)
      case Prop(pname, data) => Count(rest, if st != [] && IsCpu(pname, data) then st[top := true] else st, n)
      case Nop => Count(rest, st, n)
      case Done => n
      case Bad(_) => n
  }

  predicate HasCpu(it: Items) {
    match it
    case Nil => false
    case AProp(pname, data, rest) => IsCpu(pname, data) || HasCpu(rest)
    case AChild(_, rest) => HasCpu(rest)
    case ANop(rest) => HasCpu(rest)
  }

  /** The number of nodes with a processor `device_type`. */
  function CpuNodes(n: Node): nat
    decreases n
  {
    (if HasCpu(n.items) then 1 else 0) + CpusBelow(n.items)
  }

  function CpusBelow(it: Items): nat
    decreases it
  {
    match it
    case Nil => 0
    case AProp(_, _, rest) => CpusBelow(rest)
    case AChild(child, rest) => CpuNodes(child) + CpusBelow(rest)
    case ANop(rest) => CpusBelow(rest)
  }

  /** Levels of nodes. */
  function Depth(n: Node): nat
    decreases n
  {
    1 + DepthBelow(n.items)
  }

  function DepthBelow(it: Items): nat
    decreases it
  {
    match it
    case Nil => 0
    case AProp(_, _, rest) => DepthBelow(rest)
    case AChild(child, rest) => if Depth(child) > DepthBelow(rest) then Depth(child) else DepthBelow(rest)
    case ANop(rest) => DepthBelow(rest)
  }

  lemma {:induction false} CountNode(node: Node, rest: seq<Tok>, st: seq<bool>, n: nat)
    requires |st| + Depth(node) <= STACK
    ensures Count(Tokens(node) + rest, st, n) == Count(rest, st, n + CpuNodes(node))
    decreases node
  {
    hide Tokens, ItemTokens;
    var inner := [EndNode] + rest;
    NodeFront(node, rest);
    CountItems(node.items, inner, st, false, n);
    var flag := HasCpu(node.items);
    assert (st + [flag])[..|st|] == st;
  }

  lemma {:induction false} CountItems(it: Items, rest: seq<Tok>, st: seq<bool>, flag: bool, n: nat)
    requires |st| + 1 + DepthBelow(it) <= STACK
    ensures Count(ItemTokens(it) + rest, st + [flag], n) == Count(rest, st + [flag || HasCpu(it)], n + CpusBelow(it))
    decreases it
  {
    hide Tokens, ItemTokens;
    ItemFront(it, rest);
    match it
    case Nil =>
    case AProp(pname, data, more) =>
      assert (st + [flag])[|st| := true] == st + [true];
      CountItems(more, rest, st, flag || IsCpu(pname, data), n);
    case AChild(child, more) =>
      CountNode(child, ItemTokens(more) + rest, st + [flag], n);
      CountItems(more, rest, st, flag, n + CpuNodes(child));
    case ANop(more) =>
      CountItems(more, rest, st, flag, n);
  }

  lemma {:induction false} CountNops(k: nat, rest: seq<Tok>, st: seq<bool>, n: nat)
    ensures Count(Nops(k) + rest, st, n) == Count(rest, st, n)
  {
    if k == 0 {
      assert Nops(k) + rest == rest;
    } else {
      assert Nops(k) + rest == [Nop] + (Nops(k - 1) + rest);
      CountNops(k - 1, rest, st, n);
    }
  }

  /** On every tree of at most 32 levels the loop counts the processor nodes. */
  lemma CountRight(root: Node, before: nat, after: nat)
    requires Depth(root) <= STACK
    ensures Count(Stream(root, before, after), [], 0) == CpuNodes(root)
  {
    var tail := Nops(after) + [Done];
    assert Stream(root, before, after) == Nops(before) + (Tokens(root) + tail);
    CountNops(before, Tokens(root) + tail, [], 0);
    CountNode(root, tail, [], 0);
    CountNops(after, [Done], [], CpuNodes(root));
  }

  // ---------- the bound is tight ----------

  /** `k` plain nodes around a node. */
  function Nest(k: nat, inner: Node): Node {
    if k == 0 then inner else Node([], AChild(Nest(k - 1, inner), Nil))
  }

  const CPU_NODE := Node([], AProp(DEVICE_TYPE, CPU, Nil))

  /** Two processor nodes at levels 32 and 33 share one flag, and are counted once. */
  const PAIR := Node([], AProp(DEVICE_TYPE, CPU, AChild(CPU_NODE, Nil)))

  lemma {:induction false} NestFacts(k: nat, inner: Node)
    ensures Depth(Nest(k, inner)) == k + Depth(inner) && CpuNodes(Nest(k, inner)) == CpuNodes(inner)
  {
    if k != 0 {
      NestFacts(k - 1, inner);
      var below := AChild(Nest(k - 1, inner), Nil);
      assert DepthBelow(below) == Depth(Nest(k - 1, inner)) && CpusBelow(below) == CpuNodes(Nest(k - 1, inner))
          && !HasCpu(below);
    }
  }

  /** Entering `k` plain nodes pushes `k` clear flags; leaving them, with clear flags below, counts nothing. */
  lemma {:induction false} CountNest(k: nat, inner: Node, rest: seq<Tok>, st: seq<bool>, n: nat)
    requires |st| + k <= STACK
    ensures Count(Tokens(Nest(k, inner)) + rest, st, n) == Count(Tokens(inner) + (Ends(k) + rest), st + Clear(k), n)
  {
    if k == 0 {
      assert st + Clear(0) == st && Ends(0) + rest == rest;
    } else {
      var body := Tokens(Nest(k - 1, inner));
      assert ItemTokens(AChild(Nest(k - 1, inner), Nil)) == body;
      assert Tokens(Nest(k, inner)) + rest == [Begin([])] + (body + ([EndNode] + rest));
      CountNest(k - 1, inner, [EndNode] + rest, st + [false], n);
      assert st + [false] + Clear(k - 1) == st + Clear(k);
      assert Ends(k - 1) + ([EndNode] + rest) == Ends(k) + rest;
    }
  }

  function Clear(k: nat): (r: seq<bool>)
    ensures |r| == k && forall i :: 0 <= i < k ==> !r[i]
  {
    seq(k, i => false)
  }

  function Ends(k: nat): (r: seq<Tok>)
    ensures |r| == k && forall i :: 0 <= i < k ==> r[i] == EndNode
  {
    seq(k, i => EndNode)
  }

  lemma {:induction false} CountEnds(k: nat, m: nat, n: nat)
    ensures Count(Ends(k) + [Done], Clear(m), n) == n
  {
    if k != 0 {
      assert Ends(k) + [Done] == [EndNode] + (Ends(k - 1) + [Done]);
      if m != 0 {
        assert Clear(m)[..m - 1] == Clear(m - 1);
      }
      CountEnds(k - 1, if m == 0 then 0 else m - 1, n);
    }
  }

  /** A tree of 33 levels with two processors that the loop counts as one. */
  lemma DeepMiscount()
    ensures var root := Nest(31, PAIR);
            Depth(root) == 33 && CpuNodes(root) == 2 && Count(Stream(root, 0, 0), [], 0) == 1
  {
    hide Count, Tokens, Nest;
    var root := Nest(31, PAIR);
    NestFacts(31, PAIR);
    assert Depth(PAIR) == 2 && CpuNodes(PAIR) == 2 by {
      PairFacts();
    }
    assert Stream(root, 0, 0) == Tokens(root) + [Done];
    CountNest(31, PAIR, [Done], [], 0);
    PairOnce(Ends(31) + [Done], Clear(31));
    assert [] + Clear(31) == Clear(31);
    CountEnds(31, 30, 1);
  }

  lemma PairFacts()
    ensures Depth(PAIR) == 2 && CpuNodes(PAIR) == 2
  {
    assert CPU[..4] == CPU;
    assert CpuNodes(CPU_NODE) == 1 && Depth(CPU_NODE) == 1;
  }

  lemma PairOnce(rest: seq<Tok>, st: seq<bool>)
    requires |st| == 31 && st == Clear(31)
    ensures Count(Tokens(PAIR) + rest, st, 0) == Count(rest, Clear(30), 1)
  {
    var p := Prop(DEVICE_TYPE, CPU);
    assert ItemTokens(AProp(DEVICE_TYPE, CPU, Nil)) == [p];
    assert Tokens(CPU_NODE) == [Begin([]), p, EndNode];
    assert ItemTokens(AChild(CPU_NODE, Nil)) == Tokens(CPU_NODE);
    assert ItemTokens(PAIR.items) == [p] + Tokens(CPU_NODE);
    assert Tokens(PAIR) + rest == [Begin([]), p, Begin([]), p, EndNode, EndNode] + rest;
    var r1 := [EndNode] + rest;
    var r2 := [EndNode] + r1;
    var r3 := [p] + r2;
    var r4 := [Begin([])] + r3;
    var r5 := [p] + r4;
    assert Tokens(PAIR) + rest == [Begin([])] + r5;
    assert CPU[..4] == CPU;
    var full := st + [false];
    assert full[31 := true] == st + [true];
    assert Count([Begin([])] + r5, st, 0) == Count(r5, full, 0);
    assert Count(r5, full, 0) == Count(r4, st + [true], 0);
    assert Count(r4, st + [true], 0) == Count(r3, st + [true], 0);
    assert (st + [true])[31 := true] == st + [true];
    assert Count(r3, st + [true], 0) == Count(r2, st + [true], 0);
    assert (st + [true])[..31] == st;
    assert Count(r2, st + [true], 0) == Count(r1, st, 1);
    assert st[..30] == Clear(30);
    assert Count(r1, st, 1) == Count(rest, Clear(30), 1);
  }

  ghost predicate CountsRight(root: Node, before: nat, after: nat) {
    Count(Stream(root, before, after), [], 0) == CpuNodes(root)
  }

  /** So 32 is the largest depth up to which every tree is counted right. */
  lemma BoundExact(depth: nat)
    ensures depth <= STACK <==>
              forall root, before, after :: Depth(root) <= depth ==> CountsRight(root, before, after)
  {
    hide Count, Stream;
    if depth <= STACK {
      forall root, before, after | Depth(root) <= depth ensures CountsRight(root, before, after) {
        CountRight(root, before, after);
      }
    } else {
      DeepMiscount();
      assert !CountsRight(Nest(31, PAIR), 0, 0);
    }
  }
}
