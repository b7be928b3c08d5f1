/**
  The processor count on trees of any depth. The stack holds 32 flags: a node that begins when it is full gets none and
  shares the top one, and its end still takes a flag away. What that costs is counted exactly.
  */
module FdtDeep {
  import opened Fdt
  import opened FdtTree

  // ---------- the loop, node by node ----------

  /** The stack afterwards and the processors counted. */
  datatype Tally = Tally(st: seq<bool>, n: nat)

  function Push(st: seq<bool>): seq<bool> {
    if |st| < STACK then st + [false] else st
  }

  function Pop(t: Tally): Tally {
    var top := |t.st| - 1;
    if t.st == [] then t else Tally(t.st[..top], if t.st[top] then t.n + 1 else t.n)
  }

  function Mark(st: seq<bool>, cpu: bool): (r: seq<bool>)
    ensures |r| == |st|
  {
    if st != [] && cpu then st[|st| - 1 := true] else st
  }

  function WalkNode(node: Node, st: seq<bool>): Tally
    decreases node
  {
    Pop(WalkItems(node.items, Push(st)))
  }

  function WalkItems(it: Items, st: seq<bool>): Tally
    decreases it
  {
    match it
    case Nil => Tally(st, 0)
    case AProp(pname, data, rest) => WalkItems(rest, Mark(st, IsCpu(pname, data)))
    case AChild(child, rest) =>
      var t := WalkNode(child, st);
      var u := WalkItems(rest, t.st);
      Tally(u.st, t.n + u.n)
    case ANop(rest) => WalkItems(rest, st)
  }

  lemma {:induction false} CountWalk(node: Node, rest: seq<Tok>, st: seq<bool>, n: nat)
    ensures Count(Tokens(node) + rest, st, n) == Count(rest, WalkNode(node, st).st, n + WalkNode(node, st).n)
    decreases node
  {
    hide Tokens, ItemTokens;
    NodeFront(node, rest);
    CountWalkItems(node.items, [EndNode] + rest, Push(st), n);
  }

  lemma {:induction false} CountWalkItems(it: Items, rest: seq<Tok>, st: seq<bool>, n: nat)
    ensures Count(ItemTokens(it) + rest, st, n) == Count(rest, WalkItems(it, st).st, n + WalkItems(it, st).n)
    decreases it
  {
    hide Tokens, ItemTokens, WalkNode, IsCpu;
    ItemFront(it, rest);
    match it
    case Nil =>
    case AProp(pname, data, more) =>
      CountWalkItems(more, rest, Mark(st, IsCpu(pname, data)), n);
    case AChild(child, more) =>
      CountWalk(child, ItemTokens(more) + rest, st, n);
      CountWalkItems(more, rest, WalkNode(child, st).st, n + WalkNode(child, st).n);
    case ANop(more) =>
      CountWalkItems(more, rest, st, n);
  }

  /** What the loop computes, for every tree. */
  lemma CountIs(root: Node, before: nat, after: nat)
    ensures Count(Stream(root, before, after), [], 0) == WalkNode(root, []).n
  {
    hide WalkNode, Tokens;
    var tail := Nops(after) + [Done];
    assert Stream(root, before, after) == Nops(before) + (Tokens(root) + tail);
    CountNops(before, Tokens(root) + tail, [], 0);
    CountWalk(root, tail, [], 0);
    CountNops(after, [Done], WalkNode(root, []).st, WalkNode(root, []).n);
  }

  // ---------- what full stacks cost ----------

  /** The height of the stack after a node that found it at `h`. */
  function HeightAfter(node: Node, h: nat): nat
    decreases node
  {
    var inner := HeightItems(node.items, if h < STACK then h + 1 else h);
    if inner == 0 then 0 else inner - 1
  }

  function HeightItems(it: Items, h: nat): nat
    decreases it
  {
    match it
    case Nil => h
    case AProp(_, _, rest) => HeightItems(rest, h)
    case AChild(child, rest) => HeightItems(rest, HeightAfter(child, h))
    case ANop(rest) => HeightItems(rest, h)
  }

  /** The processor nodes that get no flag of their own and find the one they share already set: `set_` says that the
      stack is full and its top flag is. */
  function Lost(node: Node, h: nat, set_: bool): nat
    decreases node
  {
    var cpu := HasCpu(node.items);
    if h < STACK then LostItems(node.items, h + 1, h + 1 == STACK && cpu)
    else (if set_ && cpu then 1 else 0) + LostItems(node.items, h, set_ || cpu)
  }

  function LostItems(it: Items, h: nat, set_: bool): nat
    decreases it
  {
    match it
    case Nil => 0
    case AProp(_, _, rest) => LostItems(rest, h, set_)
    case AChild(child, rest) => Lost(child, h, set_) + LostItems(rest, HeightAfter(child, h), false)
    case ANop(rest) => LostItems(rest, h, set_)
  }

  /** Every node lists its properties before its children. */
  predicate Ordered(node: Node)
    decreases node
  {
    PropsFirst(node.items) && OrderedBelow(node.items)
  }

  predicate OrderedBelow(it: Items)
    decreases it
  {
    match it
    case Nil => true
    case AProp(_, _, rest) => OrderedBelow(rest)
    case AChild(child, rest) => Ordered(child) && OrderedBelow(rest)
    case ANop(rest) => OrderedBelow(rest)
  }

  function Trues(s: seq<bool>): nat {
    if s == [] then 0 else Trues(s[..|s| - 1]) + if s[|s| - 1] then 1 else 0
  }

  lemma {:induction false} TruesAdd(a: seq<bool>, b: seq<bool>)
    ensures Trues(a + b) == Trues(a) + Trues(b)
  {
    if b == [] {
      assert a + b == a;
    } else {
      assert (a + b)[..|a + b| - 1] == a + b[..|b| - 1];
      TruesAdd(a, b[..|b| - 1]);
    }
  }

  lemma TruesSplit(s: seq<bool>, i: nat, j: nat)
    requires i <= j <= |s|
    ensures Trues(s[i..]) == Trues(s[i..j]) + Trues(s[j..])
  {
    assert s[i..] == s[i..j] + s[j..];
    TruesAdd(s[i..j], s[j..]);
  }

  ghost predicate TopSet(st: seq<bool>) {
    |st| == STACK && st[STACK - 1]
  }

  /** From a stack `st`: down to height `h`, with the flags taken away counted, and `cpus` nodes of which `lost` were.
      */
  ghost predicate Settled(t: Tally, st: seq<bool>, h: nat, cpus: nat, lost: nat) {
    h <= |st| && t.st == st[..h] && t.n + lost == cpus + Trues(st[h..])
  }

  lemma {:induction false} NodeLaw(node: Node, st: seq<bool>)
    requires Ordered(node) && |st| <= STACK
    ensures Settled(WalkNode(node, st), st, HeightAfter(node, |st|), CpuNodes(node), Lost(node, |st|, TopSet(st)))
    ensures HeightAfter(node, |st|) < STACK
    decreases node, 2
  {
    hide WalkItems, HeightItems, LostItems, CpusBelow, HasCpu, OrderedBelow, Trues, Pop, Mark;
    var s, it, cpu := Push(st), node.items, HasCpu(node.items);
    ItemsLaw(it, s);
    PopLaw(WalkItems(it, s), Mark(s, cpu), HeightItems(it, |s|), CpusBelow(it),
           LostItems(it, |s|, TopSet(Mark(s, cpu))));
    OwnFlag(st, cpu, HeightAfter(node, |st|));
  }

  /** The end of a node takes one more flag away and counts it. */
  lemma PopLaw(t: Tally, st: seq<bool>, h: nat, cpus: nat, lost: nat)
    requires Settled(t, st, h, cpus, lost)
    ensures Settled(Pop(t), st, if h == 0 then 0 else h - 1, cpus, lost)
  {
    if h > 0 {
      var k := h - 1;
      assert st[..h][..k] == st[..k] && st[..h][k] == st[k];
      TruesSplit(st, k, h);
      assert st[k..h] == [st[k]] && [st[k]][..0] == [];
    }
  }

  /** The flags taken away, in terms of the stack before the node. */
  lemma OwnFlag(st: seq<bool>, cpu: bool, h: nat)
    requires |st| <= STACK && h <= |st| && h < STACK
    ensures var u := Mark(Push(st), cpu);
            && h <= |u| && u[..h] == st[..h] && (TopSet(u) <==> if |st| < STACK then |st| + 1 == STACK && cpu
                                                 else TopSet(st) || cpu)
            && Trues(u[h..]) == Trues(st[h..]) + if cpu && !TopSet(st) then 1 else 0
  {
    var u := Mark(Push(st), cpu);
    if |st| < STACK {
      assert u[h..] == st[h..] + [cpu];
      TruesAdd(st[h..], [cpu]);
    } else {
      var k := STACK - 1;
      assert st[h..] == st[h..k] + [st[k]] && u[h..] == st[h..k] + [st[k] || cpu];
      TruesAdd(st[h..k], [st[k]]);
      TruesAdd(st[h..k], [st[k] || cpu]);
    }
  }

  lemma {:induction false} ItemsLaw(it: Items, st: seq<bool>)
    requires PropsFirst(it) && OrderedBelow(it) && 1 <= |st| <= STACK
    ensures var u := Mark(st, HasCpu(it));
            Settled(WalkItems(it, st), u, HeightItems(it, |st|), CpusBelow(it), LostItems(it, |st|, TopSet(u)))
    decreases it, 1
  {
    match it
    case Nil =>
    case AProp(pname, data, rest) =>
      ItemsLaw(rest, Mark(st, IsCpu(pname, data)));
      assert Mark(Mark(st, IsCpu(pname, data)), HasCpu(rest)) == Mark(st, HasCpu(it));
    case AChild(child, rest) =>
      NoPropsNoCpu(rest);
      ChildrenLaw(it, st);
    case ANop(rest) =>
      ItemsLaw(rest, st);
  }

  lemma {:induction false} NoPropsNoCpu(it: Items)
    requires NoProps(it)
    ensures !HasCpu(it)
  {
    match it
    case Nil =>
    case AChild(_, rest) => NoPropsNoCpu(rest);
    case ANop(rest) => NoPropsNoCpu(rest);
  }

  lemma {:induction false} ChildrenLaw(it: Items, st: seq<bool>)
    requires NoProps(it) && OrderedBelow(it) && |st| <= STACK
    ensures Settled(WalkItems(it, st), st, HeightItems(it, |st|), CpusBelow(it), LostItems(it, |st|, TopSet(st)))
    decreases it, 0
  {
    match it
    case Nil =>
    case AChild(child, rest) =>
      NodeLaw(child, st);
      var h := HeightAfter(child, |st|);
      ChildrenLaw(rest, st[..h]);
      var k := HeightItems(rest, h);
      assert st[..h][..k] == st[..k] && st[..h][k..] == st[k..h];
      TruesSplit(st, k, h);
    case ANop(rest) =>
      ChildrenLaw(rest, st);
  }

  /** For every tree in the specification's order, of any depth: the loop counts all processors but those lost to a
      shared flag, and so is right exactly when there are none. */
  lemma DeepExact(root: Node, before: nat, after: nat)
    requires Ordered(root)
    ensures Count(Stream(root, before, after), [], 0) == CpuNodes(root) - Lost(root, 0, false)
    ensures CountsRight(root, before, after) <==> Lost(root, 0, false) == 0
  {
    hide Count, WalkNode, Lost, Stream;
    CountIs(root, before, after);
    NodeLaw(root, []);
  }
}
