/** The two readers of the boot loader, over the raw blob. */
module FdtWalk {
  import opened Bytes
  import opened Fdt
  import opened FdtTree
  import opened FdtDeep
  import opened FdtChosen

  lemma Front(b: seq<byte>, k: Block, p: nat, toks: seq<Tok>)
    requires Encoded(b, k, p, toks) && Terminated(toks)
    ensures TokAt(b, k, p, toks[0])
    ensures (!Stops(toks[0]) ==> Encoded(b, k, TokEnd(p, toks[0]), toks[1..]) && Terminated(toks[1..]))
  {
    hide TokAt;
    TerminatedTail(toks);
  }

  // ---------- processors ----------

  /** One token of the counting loop, on the stack. */
  method CountStep(b: seq<byte>, p: nat, strs: nat, stack: array<bool>, sp: int, count: nat, ghost k: Block,
                   ghost t: Tok)
    returns (q: nat, sp': int, count': nat)
    requires TokAt(b, k, p, t) && strs == k.strs && !Stops(t) && stack.Length == STACK && -1 <= sp < STACK
    modifies stack
    ensures q == TokEnd(p, t) && -1 <= sp' < STACK
    ensures forall rest: seq<Tok> ::
              Count([t] + rest, old(stack[..sp + 1]), count) == Count(rest, stack[..sp' + 1], count')
  {
    sp', count' := sp, count;
    var token := Be32(b, p);
    q := p + 4;
    if token == BEGIN_NODE {
      q := SkipName(b, q, t.name);
      if sp < STACK - 1 {
        sp' := sp + 1;
        stack[sp'] := false;
        assert stack[..sp' + 1] == old(stack[..sp + 1]) + [false];
      }
    } else if token == END_NODE {
      if sp >= 0 {
        if stack[sp] {
          count' := count + 1;
        }
        sp' := sp - 1;
        assert stack[..sp' + 1] == old(stack[..sp + 1])[..sp];
      }
    } else if token == PROP {
      var len, nameoff := Be32(b, q), Be32(b, q + 4);
      var data := q + 8;
      q := AlignUp(data + len);
      var isType := StrEq(b, strs + nameoff, DEVICE_TYPE, t.pname);
      CpuBytes(b, data, t.data);
      if sp >= 0 && isType && len >= 4 && b[data] == 99 && b[data + 1] == 112 && b[data + 2] == 117
          && b[data + 3] == 0 {
        stack[sp] := true;
        assert stack[..sp + 1] == old(stack[..sp + 1])[sp := true];
      }
    }
    StepRest(t);
  }

  lemma StepRest(t: Tok)
    ensures forall rest: seq<Tok> {:trigger [t] + rest} :: ([t] + rest)[0] == t && ([t] + rest)[1..] == rest
  {
    forall rest: seq<Tok> ensures ([t] + rest)[1..] == rest {
    }
  }

  lemma CpuBytes(b: seq<byte>, o: nat, data: seq<byte>)
    requires o + |data| <= |b| && b[o..o + |data|] == data
    ensures 4 <= |data| ==> (data[..4] == CPU <==> b[o] == 99 && b[o + 1] == 112 && b[o + 2] == 117 && b[o + 3] == 0)
  {
    if 4 <= |data| {
      assert data[0] == b[o] && data[1] == b[o + 1] && data[2] == b[o + 2] && data[3] == b[o + 3];
      assert data[..4] == [data[0], data[1], data[2], data[3]];
    }
  }

  /** `fdt_count_cpus`. */
  method CountCpus(b: seq<byte>, ghost k: Block, ghost toks: seq<Tok>) returns (count: nat)
    requires 4 <= |b| && (Be32(b, 0) == MAGIC ==> Blob(b, k, toks))
    ensures count == if Be32(b, 0) == MAGIC then Count(toks, [], 0) else 0
  {
    hide TokAt, Count, Be32, Encoded, Terminated;
    if Be32(b, 0) != MAGIC {
      return 0;
    }
    var p, strs := Be32(b, 8), Be32(b, 12);
    var stack := new bool[STACK];
    var sp := -1;
    count := 0;
    ghost var rest := toks;
    assert stack[..0] == [];
    TerminatedSome(toks);
    while true
      invariant Encoded(b, k, p, rest) && Terminated(rest) && rest != []
      invariant -1 <= sp < STACK && Count(rest, stack[..sp + 1], count) == Count(toks, [], 0)
      decreases |rest|
    {
      Front(b, k, p, rest);
      WordAt(b, k, p, rest[0]);
      var token := Be32(b, p);
      if token == END || token !in {BEGIN_NODE, END_NODE, PROP, NOP} {
        CountStops(rest, stack[..sp + 1], count);
        return;
      }
      assert rest == [rest[0]] + rest[1..];
      p, sp, count := CountStep(b, p, strs, stack, sp, count, k, rest[0]);
      rest := rest[1..];
      TerminatedSome(rest);
    }
  }

  lemma TerminatedSome(toks: seq<Tok>)
    requires Terminated(toks)
    ensures toks != []
  {
  }

  lemma WordAt(b: seq<byte>, k: Block, p: nat, t: Tok)
    requires TokAt(b, k, p, t)
    ensures p + 4 <= |b| && (Stops(t) <==> Be32(b, p) == END || Be32(b, p) !in {BEGIN_NODE, END_NODE, PROP, NOP})
    ensures t.Done? <==> Be32(b, p) == END
  {
  }

  lemma CountStops(toks: seq<Tok>, st: seq<bool>, n: nat)
    requires toks != [] && Stops(toks[0])
    ensures Count(toks, st, n) == n
  {
  }

  // ---------- boot arguments ----------

  /** Bytes up to the first NUL, at most `max`. */
  function CutLen(data: seq<byte>, max: nat): (n: nat)
    ensures n <= |data| && n <= max
    ensures forall i :: 0 <= i < n ==> data[i] != 0
    ensures n == max || n == |data| || data[n] == 0
  {
    if data == [] || max == 0 || data[0] == 0 then 0 else 1 + CutLen(data[1..], max - 1)
  }

  /** One token of the reading loop. */
  method ArgsStep(b: seq<byte>, p: nat, strs: nat, depth: int, chosen: int, ghost k: Block, ghost t: Tok)
    returns (q: nat, depth': int, chosen': int, found: Option<(nat, nat)>)
    requires TokAt(b, k, p, t) && strs == k.strs && !Stops(t)
    ensures q == TokEnd(p, t)
    ensures found.Some? ==> t.Prop? && found.value == (p + 12, |t.data|)
    ensures forall rest: seq<Tok> ::
              FindArgs([t] + rest, depth, chosen)
              == if found.Some? && t.Prop? then Args(t.data) else FindArgs(rest, depth', chosen')
  {
    depth', chosen', found := depth, chosen, None;
    var token := Be32(b, p);
    q := p + 4;
    if token == BEGIN_NODE {
      depth' := depth + 1;
      var named := StrEq(b, q, CHOSEN, t.name);
      if depth' == 1 && named {
        chosen' := depth';
      }
      q := SkipName(b, q, t.name);
    } else if token == END_NODE {
      if depth == chosen {
        chosen' := -1;
      }
      depth' := depth - 1;
    } else if token == PROP {
      var len, nameoff := Be32(b, q), Be32(b, q + 4);
      var data := q + 8;
      q := AlignUp(data + len);
      var named := StrEq(b, strs + nameoff, BOOTARGS, t.pname);
      if depth == chosen && named {
        found := Some((data, len));
      }
    }
    StepRest(t);
  }

  /** Copy the property into the caller's buffer, cut at a NUL, at its length and at the capacity. */
  method CopyArgs(b: seq<byte>, data: nat, len: nat, out: array<byte>, cap: nat) returns (n: nat)
    requires data + len <= |b| && 0 < cap <= out.Length
    modifies out
    ensures n == CutLen(b[data..data + len], cap - 1)
    ensures out[..n] == b[data..data + n] && out[n] == 0
    ensures forall i :: n < i < out.Length ==> out[i] == old(out[i])
  {
    hide CutLen;
    ghost var d := b[data..data + len];
    n := 0;
    assert d[0..] == d;
    while n + 1 < cap && n < len && b[data + n] != 0
      invariant 0 <= n <= len && n < cap && n + CutLen(d[n..], cap - 1 - n) == CutLen(d, cap - 1)
      invariant forall i :: 0 <= i < n ==> out[i] == b[data + i]
      invariant forall i :: n <= i < out.Length ==> out[i] == old(out[i])
    {
      CutNext(d, n, cap - 1 - n);
      out[n] := b[data + n];
      n := n + 1;
    }
    CutNext(d, n, cap - 1 - n);
    out[n] := 0;
  }

  lemma CutNext(d: seq<byte>, n: nat, max: nat)
    requires n <= |d|
    ensures CutLen(d[n..], max) == if n == |d| || max == 0 || d[n] == 0 then 0 else 1 + CutLen(d[n + 1..], max - 1)
  {
    if n < |d| {
      assert d[n..][1..] == d[n + 1..];
    }
  }

  /** The result code and string for what the walk found. */
  ghost predicate ArgsResult(args: Args, cap: nat, r: int, out: seq<byte>)
    requires 0 < cap <= |out|
  {
    match args
    case Args(data) =>
      var n := CutLen(data, cap - 1);
      r == (if n == 0 then -3 else 0) && out[..n] == data[..n] && out[n] == 0
    case NoArgs => r == -4 && out[0] == 0
    case BadToken => r == -5 && out[0] == 0
  }

  /** `fdt_get_chosen_bootargs`. */
  method GetBootargs(b: seq<byte>, out: array<byte>, cap: nat, ghost k: Block, ghost toks: seq<Tok>) returns (r: int)
    requires 4 <= |b| && (Be32(b, 0) == MAGIC ==> Blob(b, k, toks)) && cap <= out.Length
    modifies out
    ensures cap == 0 ==> r == -1 && out[..] == old(out[..])
    ensures 0 < cap && Be32(b, 0) != MAGIC ==> r == -2 && out[0] == 0
    ensures 0 < cap && Be32(b, 0) == MAGIC ==> ArgsResult(FindArgs(toks, -1, -1), cap, r, out[..])
    ensures forall i :: cap <= i < out.Length ==> out[i] == old(out[i])
  {
    hide TokAt, FindArgs, Be32, Encoded, Terminated, CutLen;
    if cap == 0 {
      return -1;
    }
    out[0] := 0;
    if Be32(b, 0) != MAGIC {
      return -2;
    }
    var p, strs := Be32(b, 8), Be32(b, 12);
    var depth, chosen := -1, -1;
    ghost var rest := toks;
    TerminatedSome(toks);
    while true
      invariant Encoded(b, k, p, rest) && Terminated(rest) && rest != []
      invariant FindArgs(rest, depth, chosen) == FindArgs(toks, -1, -1)
      invariant out[0] == 0 && forall i :: 0 < i < out.Length ==> out[i] == old(out[i])
      decreases |rest|
    {
      Front(b, k, p, rest);
      WordAt(b, k, p, rest[0]);
      var token := Be32(b, p);
      if token == END || token !in {BEGIN_NODE, END_NODE, PROP, NOP} {
        ArgsStops(rest, depth, chosen);
        return if token == END then -4 else -5;
      }
      assert rest == [rest[0]] + rest[1..];
      var found;
      PropBytes(b, k, p, rest[0]);
      p, depth, chosen, found := ArgsStep(b, p, strs, depth, chosen, k, rest[0]);
      if found.Some? {
        var n := CopyArgs(b, found.value.0, found.value.1, out, cap);
        CutSlice(b, found.value.0, rest[0].data, n);
        return if n != 0 then 0 else -3;
      }
      rest := rest[1..];
      TerminatedSome(rest);
    }
  }

  lemma PropBytes(b: seq<byte>, k: Block, p: nat, t: Tok)
    requires TokAt(b, k, p, t)
    ensures t.Prop? ==> p + 12 + |t.data| <= |b| && b[p + 12..p + 12 + |t.data|] == t.data
  {
  }

  lemma CutSlice(b: seq<byte>, o: nat, data: seq<byte>, n: nat)
    requires o + |data| <= |b| && b[o..o + |data|] == data && n <= |data|
    ensures b[o..o + n] == data[..n]
  {
    assert b[o..o + n] == b[o..o + |data|][..n];
  }

  lemma ArgsStops(toks: seq<Tok>, depth: int, chosen: int)
    requires toks != [] && Stops(toks[0])
    ensures FindArgs(toks, depth, chosen) == if toks[0].Done? then NoArgs else BadToken
  {
  }

  // ---------- the two readers on trees ----------

  ghost predicate TreeBlob(b: seq<byte>, k: Block, root: Node, before: nat, after: nat) {
    Blob(b, k, Stream(root, before, after))
  }

  /** On the blob of any tree: what the loop counts, the processor nodes up to 32 levels, and on any depth those that
      do not find a shared flag set. */
  method CountTreeCpus(b: seq<byte>, ghost k: Block, ghost root: Node, ghost before: nat, ghost after: nat)
    returns (count: nat)
    requires TreeBlob(b, k, root, before, after)
    ensures count == WalkNode(root, []).n
    ensures Depth(root) <= STACK ==> count == CpuNodes(root)
    ensures Ordered(root) ==> count == CpuNodes(root) - Lost(root, 0, false)
  {
    hide Encoded, Count, Terminated, Stream, WalkNode, CpuNodes, Depth, Lost, Ordered;
    count := CountCpus(b, k, Stream(root, before, after));
    CountIs(root, before, after);
    if Depth(root) <= STACK {
      CountRight(root, before, after);
    }
    if Ordered(root) {
      DeepExact(root, before, after);
    }
  }

  /** On the blob of any tree the string is the chosen node's boot arguments, cut at a NUL, at its length and at the
      capacity. */
  method GetTreeBootargs(b: seq<byte>, out: array<byte>, cap: nat, ghost k: Block, ghost root: Node, ghost before: nat,
                         ghost after: nat)
    returns (r: int)
    requires TreeBlob(b, k, root, before, after) && 0 < cap <= out.Length
    modifies out
    ensures ArgsResult(ArgsOf(ChosenArgs(root.items)), cap, r, out[..])
  {
    hide Encoded, FindArgs, Terminated, Stream, ChosenArgs;
    r := GetBootargs(b, out, cap, k, Stream(root, before, after));
    ReadRight(root, before, after);
  }
}
