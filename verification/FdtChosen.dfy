/** The boot arguments of a tree: the walker that reads them and the one that finds where to write them. */
module FdtChosen {
  import opened Bytes
  import opened Fdt

  // ---------- the reader ----------

  datatype Args = Args(data: seq<byte>) | NoArgs | BadToken

  function ArgsOf(o: Option<seq<byte>>): Args {
    if o.Some? then Args(o.value) else NoArgs
  }

  /** The loop of `fdt_get_chosen_bootargs`, up to the property it stops at. */
  function FindArgs(toks: seq<Tok>, depth: int, chosen: int): Args
    decreases |toks|
  {
    if toks == [] then NoArgs
    else
      var rest := toks[1..];
      match toks[0]
      case Begin(name) => FindArgs(rest, depth + 1, if depth + 1 == 1 && name == CHOSEN then depth + 1 else chosen)
      case EndNode => FindArgs(rest, depth - 1, if depth == chosen then -1 else chosen)
      case Prop(pname, data) =>
        if depth == chosen && pname == BOOTARGS then Args(data) else FindArgs(rest, depth, chosen)
      case Nop => FindArgs(rest, depth, chosen)
      case Done => NoArgs
      case Bad(_) => BadToken
  }

  /** The node's own property of that name, children aside. */
  function DirectProp(it: Items, pname: seq<byte>): Option<seq<byte>> {
    match it
    case Nil => None
    case AProp(n, data, rest) => if n == pname then Some(data) else DirectProp(rest, pname)
    case AChild(_, rest) => DirectProp(rest, pname)
    case ANop(rest) => DirectProp(rest, pname)
  }

  /** The `bootargs` of the first child named `chosen` that has one. */
  function ChosenArgs(it: Items): Option<seq<byte>> {
    match it
    case Nil => None
    case AProp(_, _, rest) => ChosenArgs(rest)
    case AChild(child, rest) =>
      if child.name == CHOSEN && DirectProp(child.items, BOOTARGS).Some? then DirectProp(child.items, BOOTARGS)
          else ChosenArgs(rest)
    case ANop(rest) => ChosenArgs(rest)
  }

  /** Below a depth-1 node nothing can match: a whole subtree is passed over. */
  lemma {:induction false} PassNode(node: Node, rest: seq<Tok>, depth: int, chosen: int)
    requires 1 <= depth && chosen <= 1
    ensures FindArgs(Tokens(node) + rest, depth, chosen) == FindArgs(rest, depth, chosen)
    decreases node
  {
    hide Tokens, ItemTokens;
    var inner := [EndNode] + rest;
    NodeFront(node, rest);
    PassItems(node.items, inner, depth + 1, chosen);
  }

  lemma {:induction false} PassItems(it: Items, rest: seq<Tok>, depth: int, chosen: int)
    requires 1 <= depth && chosen <= 1 && chosen != depth
    ensures FindArgs(ItemTokens(it) + rest, depth, chosen) == FindArgs(rest, depth, chosen)
    decreases it
  {
    hide Tokens, ItemTokens;
    ItemFront(it, rest);
    match it
    case Nil =>
    case AProp(pname, data, more) =>
      PassItems(more, rest, depth, chosen);
    case AChild(child, more) =>
      PassNode(child, ItemTokens(more) + rest, depth, chosen);
      PassItems(more, rest, depth, chosen);
    case ANop(more) =>
      PassItems(more, rest, depth, chosen);
  }

  /** Inside the chosen node the first `bootargs` wins, wherever its children stand. */
  lemma {:induction false} ReadChosen(it: Items, rest: seq<Tok>)
    ensures FindArgs(ItemTokens(it) + rest, 1, 1)
         == if DirectProp(it, BOOTARGS).Some? then Args(DirectProp(it, BOOTARGS).value) else FindArgs(rest, 1, 1)
  {
    hide Tokens, ItemTokens;
    ItemFront(it, rest);
    match it
    case Nil =>
    case AProp(pname, data, more) =>
      ReadChosen(more, rest);
    case AChild(child, more) =>
      PassNode(child, ItemTokens(more) + rest, 1, 1);
      ReadChosen(more, rest);
    case ANop(more) =>
      ReadChosen(more, rest);
  }

  lemma ReadChild(child: Node, rest: seq<Tok>)
    ensures FindArgs(Tokens(child) + rest, 0, -1)
         == if child.name == CHOSEN && DirectProp(child.items, BOOTARGS).Some?
             then Args(DirectProp(child.items, BOOTARGS).value) else FindArgs(rest, 0, -1)
  {
    hide Tokens, ItemTokens;
    var inner := [EndNode] + rest;
    NodeFront(child, rest);
    if child.name == CHOSEN {
      ReadChosen(child.items, inner);
    } else {
      PassItems(child.items, inner, 1, -1);
    }
  }

  lemma {:induction false} ReadRoot(it: Items, rest: seq<Tok>)
    ensures FindArgs(ItemTokens(it) + rest, 0, -1)
         == if ChosenArgs(it).Some? then Args(ChosenArgs(it).value) else FindArgs(rest, 0, -1)
  {
    hide Tokens, ItemTokens;
    ItemFront(it, rest);
    match it
    case Nil =>
    case AProp(pname, data, more) =>
      ReadRoot(more, rest);
    case AChild(child, more) =>
      ReadChild(child, ItemTokens(more) + rest);
      ReadRoot(more, rest);
    case ANop(more) =>
      ReadRoot(more, rest);
  }

  lemma {:induction false} ReadNops(k: nat, rest: seq<Tok>, depth: int, chosen: int)
    ensures FindArgs(Nops(k) + rest, depth, chosen) == FindArgs(rest, depth, chosen)
  {
    if k == 0 {
      assert Nops(k) + rest == rest;
    } else {
      assert Nops(k) + rest == [Nop] + (Nops(k - 1) + rest);
      ReadNops(k - 1, rest, depth, chosen);
    }
  }

  /** The loop finds the tree's boot arguments, for trees of any depth. */
  lemma ReadRight(root: Node, before: nat, after: nat)
    ensures FindArgs(Stream(root, before, after), -1, -1) == ArgsOf(ChosenArgs(root.items))
  {
    var tail := Nops(after) + [Done];
    var inner := [EndNode] + tail;
    var all := [Begin(root.name)] + (ItemTokens(root.items) + inner);
    assert Stream(root, before, after) == Nops(before) + all;
    ReadNops(before, all, -1, -1);
    assert all[1..] == ItemTokens(root.items) + inner;
    ReadRoot(root.items, inner);
    assert inner[1..] == tail;
    ReadNops(after, [Done], -1, -1);
  }

  // ---------- the writer ----------

  datatype Where = At(i: nat) | Missing | Malformed

  /** The loop of `bx_fdt_overwrite_bootargs`: the token it edits. */
  function Locate(toks: seq<Tok>, depth: int, inChosen: bool, i: nat): Where
    decreases |toks|
  {
    if toks == [] then Missing
    else
      var rest := toks[1..];
      match toks[0]
      case Begin(name) => Locate(rest, depth + 1, depth + 1 > 1 && name == CHOSEN, i + 1)
      case EndNode =>
        if depth - 1 < 0 then Malformed
        else if depth - 1 == 0 then Missing
        else Locate(rest, depth - 1, false, i + 1)
      case Prop(pname, _) => if inChosen && pname == BOOTARGS then At(i) else Locate(rest, depth, inChosen, i + 1)
      case Nop => Locate(rest, depth, inChosen, i + 1)
      case Done => Missing
      case Bad(_) => Malformed
  }

  // ---------- the tree the writer sees ----------

  /** The property the writer edits. `here` says that the last node begun or ended was the beginning of one named
      `chosen`, so only its properties before its first child count, at whatever depth it lies. */
  function WriterArgs(it: Items, here: bool): Option<seq<byte>>
    decreases it
  {
    match it
    case Nil => None
    case AProp(n, data, rest) => if here && n == BOOTARGS then Some(data) else WriterArgs(rest, here)
    case AChild(child, rest) =>
      if WriterArgs(child.items, child.name == CHOSEN).Some? then WriterArgs(child.items, child.name == CHOSEN)
      else WriterArgs(rest, false)
    case ANop(rest) => WriterArgs(rest, here)
  }

  /** The tree with that property's data replaced, and nothing else. */
  function WriterSet(it: Items, here: bool, data: seq<byte>): Items
    decreases it
  {
    match it
    case Nil => Nil
    case AProp(n, d, rest) =>
      if here && n == BOOTARGS then AProp(n, data, rest) else AProp(n, d, WriterSet(rest, here, data))
    case AChild(child, rest) =>
      if WriterArgs(child.items, child.name == CHOSEN).Some? then
        AChild(Node(child.name, WriterSet(child.items, child.name == CHOSEN, data)), rest)
      else AChild(child, WriterSet(rest, false, data))
    case ANop(rest) => ANop(WriterSet(rest, here, data))
  }

  predicate HasChild(it: Items) {
    match it
    case Nil => false
    case AProp(_, _, rest) => HasChild(rest)
    case AChild(_, _) => true
    case ANop(rest) => HasChild(rest)
  }

  /** One token of a list replaced by another with the same property name. */
  ghost predicate Edited(a: seq<Tok>, b: seq<Tok>, j: nat, was: seq<byte>, data: seq<byte>) {
    j < |a| && a[j] == Prop(BOOTARGS, was) && b == a[j := Prop(BOOTARGS, data)]
  }

  lemma EditedIn(x: seq<Tok>, a: seq<Tok>, b: seq<Tok>, y: seq<Tok>, j: nat, was: seq<byte>, data: seq<byte>)
    requires Edited(a, b, j, was, data)
    ensures Edited(x + a + y, x + b + y, |x| + j, was, data)
  {
  }

  lemma EditedCons(t: Tok, a: seq<Tok>, b: seq<Tok>, j: nat, was: seq<byte>, data: seq<byte>)
    requires Edited(a, b, j, was, data)
    ensures Edited([t] + a, [t] + b, j + 1, was, data)
  {
  }

  /** The writer's loop over the items of any node below the top: the property `WriterArgs` names, or past them all. */
  ghost predicate Written(it: Items, rest: seq<Tok>, depth: int, here: bool, i: nat, data: seq<byte>, j: nat) {
    if WriterArgs(it, here).None? then
      Locate(ItemTokens(it) + rest, depth, here, i) == Locate(rest, depth, here && !HasChild(it), i + |ItemTokens(it)|)
    else
      && Locate(ItemTokens(it) + rest, depth, here, i) == At(i + j)
      && Edited(ItemTokens(it), ItemTokens(WriterSet(it, here, data)), j, WriterArgs(it, here).value, data)
  }

  lemma {:induction false} WriteItems(it: Items, rest: seq<Tok>, depth: int, here: bool, i: nat, data: seq<byte>)
    returns (j: nat)
    requires 1 <= depth
    ensures Written(it, rest, depth, here, i, data, j)
    decreases it, 0
  {
    hide Tokens, ItemTokens, Edited;
    ItemFront(it, rest);
    ItemParts(it);
    ItemParts(WriterSet(it, here, data));
    j := 0;
    match it
    case Nil =>
    case AProp(pname, d, more) =>
      if here && pname == BOOTARGS {
        EditedHead(ItemTokens(more), d, data);
      } else {
        var k := WriteItems(more, rest, depth, here, i + 1, data);
        if WriterArgs(more, here).Some? {
          EditedCons(Prop(pname, d), ItemTokens(more), ItemTokens(WriterSet(more, here, data)), k,
                     WriterArgs(more, here).value, data);
          j := k + 1;
        }
      }
    case AChild(child, more) =>
      j := WriteChild(child, more, rest, depth, here, i, data);
    case ANop(more) =>
      var k := WriteItems(more, rest, depth, here, i + 1, data);
      if WriterArgs(more, here).Some? {
        EditedCons(Nop, ItemTokens(more), ItemTokens(WriterSet(more, here, data)), k, WriterArgs(more, here).value,
                   data);
        j := k + 1;
      }
  }

  lemma EditedHead(more: seq<Tok>, was: seq<byte>, data: seq<byte>)
    ensures Edited([Prop(BOOTARGS, was)] + more, [Prop(BOOTARGS, data)] + more, 0, was, data)
  {
  }

  lemma {:induction false} WriteChild(child: Node, more: Items, rest: seq<Tok>, depth: int, here: bool, i: nat,
                                      data: seq<byte>)
    returns (j: nat)
    requires 1 <= depth
    ensures Written(AChild(child, more), rest, depth, here, i, data, j)
    decreases AChild(child, more), -1
  {
    hide Tokens, ItemTokens, Edited, Locate;
    var it, named := AChild(child, more), child.name == CHOSEN;
    var after := ItemTokens(more) + rest;
    ItemFront(it, rest);
    ItemParts(it);
    ItemParts(WriterSet(it, here, data));
    NodeParts(child);
    NodeFront(child, after);
    EnterChild(child.name, ItemTokens(child.items) + ([EndNode] + after), depth, here, i);
    var k := WriteItems(child.items, [EndNode] + after, depth + 1, named, i + 1, data);
    if WriterArgs(child.items, named).Some? {
      var child' := Node(child.name, WriterSet(child.items, named, data));
      NodeParts(child');
      var was := WriterArgs(child.items, named).value;
      EditedIn([Begin(child.name)], ItemTokens(child.items), ItemTokens(child'.items), [EndNode], k, was, data);
      j := 1 + k;
      EditedIn([], Tokens(child), Tokens(child'), ItemTokens(more), j, was, data);
      assert [] + Tokens(child) + ItemTokens(more) == ItemTokens(it);
      assert [] + Tokens(child') + ItemTokens(more) == ItemTokens(WriterSet(it, here, data));
    } else {
      LeaveChild(after, depth, named && !HasChild(child.items), i + 1 + |ItemTokens(child.items)|);
      var m := WriteItems(more, rest, depth, false, i + |Tokens(child)|, data);
      j := |Tokens(child)| + m;
      if WriterArgs(more, false).Some? {
        EditedIn(Tokens(child), ItemTokens(more), ItemTokens(WriterSet(more, false, data)), [], m,
                 WriterArgs(more, false).value, data);
        assert Tokens(child) + ItemTokens(more) + [] == ItemTokens(it);
        assert Tokens(child) + ItemTokens(WriterSet(more, false, data)) + [] == ItemTokens(WriterSet(it, here, data));
      }
    }
  }

  lemma EnterChild(name: seq<byte>, rest: seq<Tok>, depth: int, here: bool, i: nat)
    requires 1 <= depth
    ensures Locate([Begin(name)] + rest, depth, here, i) == Locate(rest, depth + 1, name == CHOSEN, i + 1)
  {
    assert ([Begin(name)] + rest)[1..] == rest;
  }

  lemma LeaveChild(rest: seq<Tok>, depth: int, here: bool, i: nat)
    requires 1 <= depth
    ensures Locate([EndNode] + rest, depth + 1, here, i) == Locate(rest, depth, false, i + 1)
  {
    assert ([EndNode] + rest)[1..] == rest;
  }

  lemma {:induction false} WriteNops(k: nat, rest: seq<Tok>, i: nat)
    ensures Locate(Nops(k) + rest, 0, false, i) == Locate(rest, 0, false, i + k)
  {
    if k == 0 {
      assert Nops(k) + rest == rest;
    } else {
      assert Nops(k) + rest == [Nop] + (Nops(k - 1) + rest);
      WriteNops(k - 1, rest, i + 1);
    }
  }

  /** For every tree: the writer edits the property `WriterArgs` names, and the stream it leaves is that of the tree
      with only that property's data replaced. */
  lemma WriteRight(root: Node, before: nat, after: nat, data: seq<byte>) returns (j: nat)
    ensures WriterArgs(root.items, false).None? ==> Locate(Stream(root, before, after), 0, false, 0) == Missing
    ensures WriterArgs(root.items, false).Some? ==>
              && Locate(Stream(root, before, after), 0, false, 0) == At(j)
              && Edited(Stream(root, before, after),
                        Stream(Node(root.name, WriterSet(root.items, false, data)), before, after), j,
                        WriterArgs(root.items, false).value, data)
  {
    hide Edited, Locate, ItemTokens;
    var head, inner := Nops(before) + [Begin(root.name)], [EndNode] + (Nops(after) + [Done]);
    StreamParts(root, before, after);
    RootStart(root.name, before, ItemTokens(root.items) + inner);
    RootEnd(Nops(after) + [Done], before + 1 + |ItemTokens(root.items)|);
    assert head + ItemTokens(root.items) + inner == head + (ItemTokens(root.items) + inner);
    var k := WriteItems(root.items, inner, 1, false, before + 1, data);
    j := before + 1 + k;
    if WriterArgs(root.items, false).Some? {
      var items' := WriterSet(root.items, false, data);
      StreamParts(Node(root.name, items'), before, after);
      EditedIn(head, ItemTokens(root.items), ItemTokens(items'), inner, k, WriterArgs(root.items, false).value, data);
    }
  }

  lemma StreamParts(root: Node, before: nat, after: nat)
    ensures Stream(root, before, after)
         == (Nops(before) + [Begin(root.name)]) + ItemTokens(root.items) + ([EndNode] + (Nops(after) + [Done]))
  {
  }

  lemma RootStart(name: seq<byte>, before: nat, rest: seq<Tok>)
    ensures Locate((Nops(before) + [Begin(name)]) + rest, 0, false, 0) == Locate(rest, 1, false, before + 1)
  {
    var all := [Begin(name)] + rest;
    assert (Nops(before) + [Begin(name)]) + rest == Nops(before) + all;
    WriteNops(before, all, 0);
    assert all[1..] == rest;
  }

  lemma RootEnd(tail: seq<Tok>, i: nat)
    ensures Locate([EndNode] + tail, 1, false, i) == Missing
  {
  }

  // ---------- where the reader and the writer meet ----------

  /** The property before the node's first child. */
  function EarlyProp(it: Items, pname: seq<byte>): Option<seq<byte>> {
    match it
    case Nil => None
    case AProp(n, data, rest) => if n == pname then Some(data) else EarlyProp(rest, pname)
    case AChild(_, _) => None
    case ANop(rest) => EarlyProp(rest, pname)
  }

  /** Of the root's children, the first in which either the reader or the writer finds anything is a `chosen` node
      with its boot arguments before its first child. */
  predicate SameSpot(it: Items) {
    match it
    case Nil => false
    case AProp(_, _, rest) => SameSpot(rest)
    case AChild(child, rest) =>
      if || WriterArgs(child.items, child.name == CHOSEN).Some?
         || (child.name == CHOSEN && DirectProp(child.items, BOOTARGS).Some?)
      then child.name == CHOSEN && EarlyProp(child.items, BOOTARGS).Some?
      else SameSpot(rest)
    case ANop(rest) => SameSpot(rest)
  }

  /** Inside a `chosen` node. */
  lemma {:induction false} EarlyBoth(it: Items, data: seq<byte>)
    ensures EarlyProp(it, BOOTARGS).Some? ==>
              && WriterArgs(it, true) == DirectProp(it, BOOTARGS) == EarlyProp(it, BOOTARGS)
              && DirectProp(WriterSet(it, true, data), BOOTARGS) == Some(data)
    ensures EarlyProp(it, BOOTARGS).None? ==>
              DirectProp(WriterSet(it, true, data), BOOTARGS) == DirectProp(it, BOOTARGS)
  {
    match it
    case Nil =>
    case AProp(_, _, rest) => EarlyBoth(rest, data);
    case AChild(_, rest) => NotHere(rest, data);
    case ANop(rest) => EarlyBoth(rest, data);
  }

  /** An edit that is not one of this node's own properties leaves them. */
  lemma {:induction false} NotHere(it: Items, data: seq<byte>)
    ensures DirectProp(WriterSet(it, false, data), BOOTARGS) == DirectProp(it, BOOTARGS)
  {
    match it
    case Nil =>
    case AProp(_, _, rest) => NotHere(rest, data);
    case AChild(_, rest) => NotHere(rest, data);
    case ANop(rest) => NotHere(rest, data);
  }

  /** What the reader returns after the writer's edit: the new data where they meet, and otherwise what it returned
      before. */
  lemma {:induction false} ReadAfterWrite(it: Items, data: seq<byte>)
    ensures SameSpot(it) ==> WriterArgs(it, false).Some? && ChosenArgs(it) == WriterArgs(it, false)
    ensures ChosenArgs(WriterSet(it, false, data)) == if SameSpot(it) then Some(data) else ChosenArgs(it)
  {
    match it
    case Nil =>
    case AProp(_, _, rest) => ReadAfterWrite(rest, data);
    case AChild(child, rest) =>
      EarlyBoth(child.items, data);
      ReadAfterWrite(rest, data);
    case ANop(rest) => ReadAfterWrite(rest, data);
  }

  // ---------- trees as the specification asks for ----------

  predicate NoChosen(it: Items)
    decreases it
  {
    match it
    case Nil => true
    case AProp(_, _, rest) => NoChosen(rest)
    case AChild(child, rest) => child.name != CHOSEN && NoChosen(child.items) && NoChosen(rest)
    case ANop(rest) => NoChosen(rest)
  }

  /** No node named `chosen` below the root's children, and those named so list their properties first. */
  predicate Tidy(it: Items) {
    match it
    case Nil => true
    case AProp(_, _, rest) => Tidy(rest)
    case AChild(child, rest) => NoChosen(child.items) && (child.name == CHOSEN ==> PropsFirst(child.items))
        && Tidy(rest)
    case ANop(rest) => Tidy(rest)
  }

  lemma {:induction false} NoChosenNone(it: Items)
    requires NoChosen(it)
    ensures WriterArgs(it, false).None?
    decreases it
  {
    match it
    case Nil =>
    case AProp(_, _, rest) => NoChosenNone(rest);
    case AChild(child, rest) =>
      NoChosenNone(child.items);
      NoChosenNone(rest);
    case ANop(rest) => NoChosenNone(rest);
  }

  lemma {:induction false} NoPropsNone(it: Items, pname: seq<byte>)
    requires NoProps(it)
    ensures DirectProp(it, pname).None?
  {
    match it
    case Nil =>
    case AChild(_, rest) => NoPropsNone(rest, pname);
    case ANop(rest) => NoPropsNone(rest, pname);
  }

  lemma {:induction false} AllEarly(it: Items)
    requires NoChosen(it) && PropsFirst(it)
    ensures WriterArgs(it, true) == DirectProp(it, BOOTARGS) == EarlyProp(it, BOOTARGS)
  {
    match it
    case Nil =>
    case AProp(_, _, rest) => AllEarly(rest);
    case AChild(child, rest) =>
      NoChosenNone(child.items);
      NoChosenNone(rest);
      NoPropsNone(rest, BOOTARGS);
    case ANop(rest) => AllEarly(rest);
  }

  /** There they meet whenever the reader finds anything, and the writer finds nothing more. */
  lemma {:induction false} TidyMeets(it: Items)
    requires Tidy(it)
    ensures WriterArgs(it, false) == ChosenArgs(it) && (SameSpot(it) <==> ChosenArgs(it).Some?)
  {
    match it
    case Nil =>
    case AProp(_, _, rest) => TidyMeets(rest);
    case AChild(child, rest) =>
      if child.name == CHOSEN {
        AllEarly(child.items);
      } else {
        NoChosenNone(child.items);
      }
      TidyMeets(rest);
    case ANop(rest) => TidyMeets(rest);
  }

  /** Elsewhere they need not: boot arguments behind a child are read and not found for writing; those of a nested
      `chosen` are written and not read. */
  lemma ApartWitness(was: seq<byte>)
    ensures var late := AChild(Node(CHOSEN, AChild(Node([], Nil), AProp(BOOTARGS, was, Nil))), Nil);
            ChosenArgs(late) == Some(was) && WriterArgs(late, false) == None
    ensures var nested := AChild(Node([], AChild(Node(CHOSEN, AProp(BOOTARGS, was, Nil)), Nil)), Nil);
            ChosenArgs(nested) == None && WriterArgs(nested, false) == Some(was)
  {
    var prop := AProp(BOOTARGS, was, Nil);
    assert DirectProp(prop, BOOTARGS) == Some(was) && WriterArgs(prop, false) == None
        && WriterArgs(prop, true) == Some(was);
    var behind, inside := AChild(Node([], Nil), prop), AChild(Node(CHOSEN, prop), Nil);
    assert DirectProp(behind, BOOTARGS) == Some(was) && WriterArgs(behind, true) == None;
    assert WriterArgs(inside, false) == Some(was);
  }
}
