/**
  The HFS+ catalog as the host-side image tool reads it: leaf nodes, the linear scan over the
  slots of every leaf, and path lookup.

  The scan starts at the slot that holds the free-space offset, so it reads the free space as a
  record and never reads the first record of the node. The model keeps that.
  */
module HfsCatalog {
  import opened Bytes
  import opened Blocking

  const DATA_FORK_OFF := 88
  const FOLDER_RECORD := 1
  const FILE_RECORD := 2
  const ROOT_ID := 2
  const LEAF_KIND: byte := 0xFF
  const SLASH: byte := 47
  const QUESTION: byte := 63

  /** `RuntimeError` is what the tool raises itself; `StructError` is a field outside its buffer. */
  datatype PyError = RuntimeError | StructError

  // ---------- one slot of a node ----------

  function Records(node: seq<byte>): nat
    requires 12 <= |node|
  {
    Be16(node, 10)
  }

  predicate IsLeaf(node: seq<byte>)
    requires 12 <= |node|
  {
    node[8] == LEAF_KIND
  }

  /** Where slot `r` of the offset table is. A negative offset counts from the end of the buffer. */
  function SlotPos(node: seq<byte>, r: nat): int
    requires 12 <= |node|
  {
    var o := |node| - 2 * (Records(node) + 1) + 2 * r;
    if o < 0 then o + |node| else o
  }

  predicate SlotInNode(node: seq<byte>, r: nat)
    requires 12 <= |node|
  {
    0 <= SlotPos(node, r) && SlotPos(node, r) + 2 <= |node|
  }

  function RecOff(node: seq<byte>, r: nat): nat
    requires 12 <= |node| && SlotInNode(node, r)
  {
    Be16(node, SlotPos(node, r))
  }

  function NameLen(node: seq<byte>, o: nat): nat
    requires o + 8 <= |node|
  {
    Be16(node, o + 6)
  }

  function DataOff(node: seq<byte>, o: nat): nat
    requires o + 8 <= |node|
  {
    o + 2 + Be16(node, o)
  }

  predicate KeyInNode(node: seq<byte>, o: nat) {
    o + 8 <= |node| && o + 8 + 2 * NameLen(node, o) <= |node|
  }

  /** ASCII rendering of a UTF-16 name: anything else becomes a question mark. */
  function AsciiName(b: seq<byte>, off: nat, chars: nat): (name: seq<byte>)
    requires off + 2 * chars <= |b|
    ensures |name| == chars
  {
    seq(chars, i requires 0 <= i < chars => var c := Be16(b, off + 2 * i); if 0 < c < 128 then c else QUESTION)
  }

  predicate NoZeroChars(b: seq<byte>, off: nat, chars: nat)
    requires off + 2 * chars <= |b|
  {
    forall i :: 0 <= i < chars ==> Be16(b, off + 2 * i) != 0
  }

  predicate KeyMatches(node: seq<byte>, o: nat, parent: nat, target: seq<byte>)
    requires KeyInNode(node, o)
  {
    Be32(node, o + 2) == parent && AsciiName(node, o + 8, NameLen(node, o)) == target
  }

  // ---------- the scan ----------

  datatype Scan = Hit(node: nat, dataOff: nat, kind: nat) | Miss | Raised(e: PyError)

  function ScanNode(id: nat, node: seq<byte>, parent: nat, target: seq<byte>, r: nat): Scan
    requires 12 <= |node|
    decreases Records(node) - r
  {
    if r >= Records(node) then Miss
    else if !SlotInNode(node, r) || !KeyInNode(node, RecOff(node, r)) then Raised(StructError)
    else
      var o := RecOff(node, r);
      if !KeyMatches(node, o, parent, target) then ScanNode(id, node, parent, target, r + 1)
      else if DataOff(node, o) + 2 > |node| then Raised(StructError)
      else Hit(id, DataOff(node, o), Be16(node, DataOff(node, o)))
  }

  function Node(cat: seq<byte>, ns: nat, n: nat): (node: seq<byte>)
    requires Len(n + 1, ns) <= |cat|
    ensures |node| == ns
  {
    cat[Len(n, ns)..Len(n, ns) + ns]
  }

  /** The scan over leaves `n..last` for a child of `parent` called `target`. */
  function ScanFrom(cat: seq<byte>, ns: nat, n: nat, last: nat, parent: nat, target: seq<byte>): Scan
    requires 0 < ns
    decreases last + 1 - n
  {
    if n > last then Miss
    else if Len(n + 1, ns) > |cat| then Raised(RuntimeError)
    else if ns <= 8 then Raised(StructError)
    else if Node(cat, ns, n)[8] != LEAF_KIND then ScanFrom(cat, ns, n + 1, last, parent, target)
    else if ns < 12 then Raised(StructError)
    else
      var s := ScanNode(n, Node(cat, ns, n), parent, target, 0);
      if s.Miss? then ScanFrom(cat, ns, n + 1, last, parent, target) else s
  }

  lemma {:induction false} ScanNodeHit(id: nat, node: seq<byte>, parent: nat, target: seq<byte>, r: nat)
    requires 12 <= |node|
    ensures var s := ScanNode(id, node, parent, target, r);
            s.Hit? ==> s.node == id && s.dataOff + 2 <= |node| && s.kind == Be16(node, s.dataOff)
    decreases Records(node) - r
  {
    if r < Records(node) && SlotInNode(node, r) && KeyInNode(node, RecOff(node, r)) {
      ScanNodeHit(id, node, parent, target, r + 1);
    }
  }

  lemma {:induction false} ScanHit(cat: seq<byte>, ns: nat, n: nat, last: nat, parent: nat, target: seq<byte>)
    requires 0 < ns
    ensures var s := ScanFrom(cat, ns, n, last, parent, target);
            s.Hit? ==> && n <= s.node <= last && 12 <= ns && Len(s.node + 1, ns) <= |cat|
                       && IsLeaf(Node(cat, ns, s.node)) && s.dataOff + 2 <= ns
                       && s.kind == Be16(Node(cat, ns, s.node), s.dataOff)
    decreases last + 1 - n
  {
    hide Len, Node, ScanNode;
    if n <= last && Len(n + 1, ns) <= |cat| && 8 < ns {
      ScanHit(cat, ns, n + 1, last, parent, target);
      if 12 <= ns {
        ScanNodeHit(n, Node(cat, ns, n), parent, target, 0);
      }
    }
  }

  // ---------- paths ----------

  /** Length of the first component: up to the first slash or the end. */
  function CompLen(path: seq<byte>): (k: nat)
    ensures k <= |path| && (k < |path| ==> path[k] == SLASH)
    ensures forall i :: 0 <= i < k ==> path[i] != SLASH
  {
    if path == [] || path[0] == SLASH then 0 else 1 + CompLen(path[1..])
  }

  /** The non-empty components of a path. */
  function Parts(path: seq<byte>): seq<seq<byte>>
    decreases |path|
  {
    if path == [] then []
    else if path[0] == SLASH then Parts(path[1..])
    else [path[..CompLen(path)]] + Parts(path[CompLen(path)..])
  }

  /** `str.split("/")`. */
  function SplitOn(path: seq<byte>): seq<seq<byte>>
    decreases |path|
  {
    var k := CompLen(path);
    if k == |path| then [path] else [path[..k]] + SplitOn(path[k + 1..])
  }

  function DropEmpty(parts: seq<seq<byte>>): seq<seq<byte>> {
    if parts == [] then []
    else if parts[0] == [] then DropEmpty(parts[1..])
    else [parts[0]] + DropEmpty(parts[1..])
  }

  /** `[part for part in path.split("/") if part]` is the list of non-empty components. */
  lemma {:induction false} SplitParts(path: seq<byte>)
    ensures DropEmpty(SplitOn(path)) == Parts(path)
    decreases |path|
  {
    var k := CompLen(path);
    if path == [] {
    } else if k == |path| {
      assert path[..k] == path && path[k..] == [];
      assert DropEmpty([path]) == [path] + DropEmpty([path][1..]);
    } else {
      SplitParts(path[k + 1..]);
      assert SplitOn(path)[1..] == SplitOn(path[k + 1..]);
      if k == 0 {
        assert path[k + 1..] == path[1..];
      } else {
        assert path[k..][0] == SLASH && path[k..][1..] == path[k + 1..];
        assert Parts(path[k..]) == Parts(path[k + 1..]);
      }
    }
  }

  // ---------- lookup ----------

  datatype Find = File(node: nat, dataOff: nat) | Failed(e: PyError)

  function FindParts(cat: seq<byte>, ns: nat, first: nat, last: nat, parts: seq<seq<byte>>, parent: nat): Find
    requires 0 < ns
    decreases |parts|
  {
    if parts == [] then Failed(RuntimeError)
    else
      var s := ScanFrom(cat, ns, first, last, parent, parts[0]);
      match s
      case Miss => Failed(RuntimeError)
      case Raised(e) => Failed(e)
      case Hit(n, d, kind) =>
        if |parts| == 1 then
          if kind == FILE_RECORD then File(n, d) else Failed(RuntimeError)
        else if kind != FOLDER_RECORD then Failed(RuntimeError)
        else if d + 12 > ns then Failed(StructError)
        else
          ScanHit(cat, ns, first, last, parent, parts[0]);
          FindParts(cat, ns, first, last, parts[1..], Be32(Node(cat, ns, n), d + 8))
  }

  function FindFileSpec(cat: seq<byte>, ns: nat, first: nat, last: nat, path: seq<byte>): Find
    requires 0 < ns
  {
    FindParts(cat, ns, first, last, Parts(path), ROOT_ID)
  }

  lemma {:induction false} PartsNonEmpty(path: seq<byte>)
    ensures forall p :: p in Parts(path) ==> p != []
    decreases |path|
  {
    if path != [] {
      PartsNonEmpty(path[if path[0] == SLASH then 1 else CompLen(path)..]);
    }
  }

  lemma {:induction false} FoundFile(cat: seq<byte>, ns: nat, first: nat, last: nat, parts: seq<seq<byte>>, parent: nat)
    requires 0 < ns && forall p :: p in parts ==> p != []
    ensures var f := FindParts(cat, ns, first, last, parts, parent);
            f.File? ==> && first <= f.node <= last && 12 <= ns && Len(f.node + 1, ns) <= |cat| && f.dataOff + 2 <= ns
                        && IsLeaf(Node(cat, ns, f.node))
                        && exists p, t :: t != []
                            && ScanFrom(cat, ns, first, last, p, t) == Hit(f.node, f.dataOff, FILE_RECORD)
    decreases |parts|
  {
    hide ScanFrom, Len, Node, IsLeaf, Be32;
    if parts != [] {
      assert parts[0] in parts;
      var s := ScanFrom(cat, ns, first, last, parent, parts[0]);
      ScanHit(cat, ns, first, last, parent, parts[0]);
      if s.Hit? && s.dataOff + 12 <= ns {
        assert forall p :: p in parts[1..] ==> p in parts;
        FoundFile(cat, ns, first, last, parts[1..], Be32(Node(cat, ns, s.node), s.dataOff + 8));
      }
    }
  }

  // ---------- writing a fork record does not disturb the scan ----------

  predicate Disjoint(lo: nat, hi: nat, a: nat, b: nat) {
    hi <= a || b <= lo
  }

  /** Bytes `lo..hi` hold nothing the scan reads of slot `r`: not its key, and not the first
      twelve bytes of its record (type and folder id). */
  predicate SlotClear(node: seq<byte>, r: nat, lo: nat, hi: nat)
    requires 12 <= |node| && SlotInNode(node, r)
  {
    var o := RecOff(node, r);
    o + 8 <= |node| ==> && Disjoint(lo, hi, o, o + 8 + 2 * NameLen(node, o))
                        && Disjoint(lo, hi, DataOff(node, o), DataOff(node, o) + 12)
  }

  /** Bytes `lo..hi` of a node hold nothing the scan reads. */
  ghost predicate Clear(node: seq<byte>, lo: nat, hi: nat)
    requires 12 <= |node|
  {
    && 12 <= lo
    && (IsLeaf(node) ==>
          && 2 * (Records(node) + 1) <= |node|
          && hi <= |node| - 2 * (Records(node) + 1)
          && forall r :: 0 <= r < Records(node) ==> SlotClear(node, r, lo, hi))
  }

  lemma FieldsOutside(b: seq<byte>, off: nat, d: seq<byte>, o: nat)
    requires off + |d| <= |b|
    ensures o + 2 <= |b| && Disjoint(off, off + |d|, o, o + 2) ==> Be16(Patch(b, off, d), o) == Be16(b, o)
    ensures o + 4 <= |b| && Disjoint(off, off + |d|, o, o + 4) ==> Be32(Patch(b, off, d), o) == Be32(b, o)
  {
  }

  lemma NameOutside(b: seq<byte>, off: nat, d: seq<byte>, o: nat, n: nat)
    requires off + |d| <= |b| && o + 2 * n <= |b| && Disjoint(off, off + |d|, o, o + 2 * n)
    ensures AsciiName(Patch(b, off, d), o, n) == AsciiName(b, o, n)
  {
    forall i | 0 <= i < n ensures AsciiName(Patch(b, off, d), o, n)[i] == AsciiName(b, o, n)[i] {
      FieldsOutside(b, off, d, o + 2 * i);
    }
  }

  lemma HeaderOutside(node: seq<byte>, off: nat, w: seq<byte>)
    requires 12 <= |node| && off + |w| <= |node| && Clear(node, off, off + |w|)
    ensures Records(Patch(node, off, w)) == Records(node) && IsLeaf(Patch(node, off, w)) == IsLeaf(node)
    ensures forall r: nat :: SlotPos(Patch(node, off, w), r) == SlotPos(node, r)
    ensures forall r: nat :: SlotInNode(Patch(node, off, w), r) == SlotInNode(node, r)
  {
    FieldsOutside(node, off, w, 10);
  }

  lemma SlotOutside(node: seq<byte>, off: nat, w: seq<byte>, r: nat)
    requires 12 <= |node| && off + |w| <= |node| && IsLeaf(node) && Clear(node, off, off + |w|) && r < Records(node)
    ensures var node' := Patch(node, off, w);
            && Records(node') == Records(node) && SlotInNode(node, r) && SlotInNode(node', r)
            && RecOff(node', r) == RecOff(node, r)
            && var o := RecOff(node, r);
               && KeyInNode(node', o) == KeyInNode(node, o)
               && (o + 8 <= |node| ==> NameLen(node', o) == NameLen(node, o) && DataOff(node', o) == DataOff(node, o))
               && (forall lo: nat, hi: nat :: SlotClear(node', r, lo, hi) == SlotClear(node, r, lo, hi))
  {
    HeaderOutside(node, off, w);
    FieldsOutside(node, off, w, SlotPos(node, r));
    assert SlotClear(node, r, off, off + |w|);
    var o := RecOff(node, r);
    if o + 8 <= |node| {
      FieldsOutside(node, off, w, o);
      FieldsOutside(node, off, w, o + 6);
    }
  }

  lemma KeyOutside(node: seq<byte>, off: nat, w: seq<byte>, r: nat, parent: nat, target: seq<byte>)
    requires 12 <= |node| && off + |w| <= |node| && IsLeaf(node) && Clear(node, off, off + |w|) && r < Records(node)
    requires SlotInNode(node, r) && KeyInNode(node, RecOff(node, r))
    ensures KeyInNode(Patch(node, off, w), RecOff(node, r))
    ensures KeyMatches(Patch(node, off, w), RecOff(node, r), parent, target)
        == KeyMatches(node, RecOff(node, r), parent, target)
    ensures DataOff(node, RecOff(node, r)) + 2 <= |node|
        ==> Be16(Patch(node, off, w), DataOff(node, RecOff(node, r))) == Be16(node, DataOff(node, RecOff(node, r)))
  {
    SlotOutside(node, off, w, r);
    assert SlotClear(node, r, off, off + |w|);
    var o := RecOff(node, r);
    FieldsOutside(node, off, w, o + 2);
    NameOutside(node, off, w, o + 8, NameLen(node, o));
    FieldsOutside(node, off, w, DataOff(node, o));
  }

  lemma {:induction false} ScanNodeOutside(id: nat, node: seq<byte>, off: nat, w: seq<byte>, parent: nat,
                                           target: seq<byte>, r: nat)
    requires 12 <= |node| && off + |w| <= |node| && IsLeaf(node) && Clear(node, off, off + |w|)
    ensures Records(Patch(node, off, w)) == Records(node)
    ensures ScanNode(id, Patch(node, off, w), parent, target, r) == ScanNode(id, node, parent, target, r)
    decreases Records(node) - r
  {
    hide KeyMatches, Clear, Patch, NameLen, DataOff, Be16;
    HeaderOutside(node, off, w);
    if r < Records(node) {
      SlotOutside(node, off, w, r);
      if KeyInNode(node, RecOff(node, r)) {
        KeyOutside(node, off, w, r, parent, target);
        ScanNodeOutside(id, node, off, w, parent, target, r + 1);
      }
    }
  }

  lemma ClearOutside(node: seq<byte>, off: nat, w: seq<byte>, lo: nat, hi: nat)
    requires 12 <= |node| && off + |w| <= |node| && Clear(node, off, off + |w|) && Clear(node, lo, hi)
    ensures Clear(Patch(node, off, w), lo, hi)
  {
    HeaderOutside(node, off, w);
    if IsLeaf(node) {
      forall r | 0 <= r < Records(node) ensures SlotClear(Patch(node, off, w), r, lo, hi) {
        SlotOutside(node, off, w, r);
      }
    }
  }

  /** A record window inside node `n`, clear of everything the scan reads. */
  ghost predicate WindowClear(cat: seq<byte>, ns: nat, n: nat, off: nat, len: nat) {
    12 <= ns && Len(n + 1, ns) <= |cat| && off + len <= ns && Clear(Node(cat, ns, n), off, off + len)
  }

  lemma NodeOfPatch(cat: seq<byte>, ns: nat, n: nat, off: nat, w: seq<byte>, m: nat)
    requires Len(n + 1, ns) <= |cat| && off + |w| <= ns && Len(m + 1, ns) <= |cat|
    ensures Len(n, ns) + off + |w| <= |cat|
    ensures Node(Patch(cat, Len(n, ns) + off, w), ns, m)
         == if m == n then Patch(Node(cat, ns, n), off, w) else Node(cat, ns, m)
  {
    hide Len, Patch;
    LenNext(n, ns);
    LenNext(m, ns);
    SliceOfPatch(cat, Len(n, ns) + off, w, Len(m, ns), ns);
    if m < n {
      LenMono(m + 1, n, ns);
    } else if n < m {
      LenMono(n + 1, m, ns);
    }
  }

  lemma {:induction false} ScanOutside(cat: seq<byte>, ns: nat, n: nat, off: nat, w: seq<byte>,
                                       m: nat, last: nat, parent: nat, target: seq<byte>)
    requires WindowClear(cat, ns, n, off, |w|)
    ensures ScanFrom(Patch(cat, Len(n, ns) + off, w), ns, m, last, parent, target)
         == ScanFrom(cat, ns, m, last, parent, target)
    decreases last + 1 - m
  {
    hide ScanNode, KeyMatches, SlotClear, SlotPos, Records, Patch, Len;
    if m <= last && Len(m + 1, ns) <= |cat| {
      NodeOfPatch(cat, ns, n, off, w, m);
      HeaderOutside(Node(cat, ns, n), off, w);
      ScanOutside(cat, ns, n, off, w, m + 1, last, parent, target);
      if m == n && IsLeaf(Node(cat, ns, n)) {
        ScanNodeOutside(n, Node(cat, ns, n), off, w, parent, target, 0);
      }
    }
  }

  /** The slot a hit comes from. */
  lemma {:induction false} HitSlot(id: nat, node: seq<byte>, parent: nat, target: seq<byte>, r: nat) returns (k: nat)
    requires 12 <= |node| && ScanNode(id, node, parent, target, r).Hit?
    ensures r <= k < Records(node) && SlotInNode(node, k) && KeyInNode(node, RecOff(node, k))
    ensures DataOff(node, RecOff(node, k)) == ScanNode(id, node, parent, target, r).dataOff
    decreases Records(node) - r
  {
    if KeyMatches(node, RecOff(node, r), parent, target) {
      k := r;
    } else {
      k := HitSlot(id, node, parent, target, r + 1);
    }
  }

  /** The node of a hit gives the same hit when it is scanned on its own. */
  lemma {:induction false} HitNode(cat: seq<byte>, ns: nat, n: nat, last: nat, parent: nat, target: seq<byte>)
    requires 0 < ns && ScanFrom(cat, ns, n, last, parent, target).Hit?
    ensures var s := ScanFrom(cat, ns, n, last, parent, target);
            && 12 <= ns && Len(s.node + 1, ns) <= |cat| && IsLeaf(Node(cat, ns, s.node))
            && ScanNode(s.node, Node(cat, ns, s.node), parent, target, 0) == s
    decreases last + 1 - n
  {
    hide Node, Len;
    if Node(cat, ns, n)[8] != LEAF_KIND || ScanNode(n, Node(cat, ns, n), parent, target, 0).Miss? {
      HitNode(cat, ns, n + 1, last, parent, target);
    } else {
      ScanNodeHit(n, Node(cat, ns, n), parent, target, 0);
    }
  }

  lemma FolderIdOutside(cat: seq<byte>, ns: nat, n: nat, off: nat, w: seq<byte>,
                        first: nat, last: nat, parent: nat, target: seq<byte>)
    requires WindowClear(cat, ns, n, off, |w|)
    requires var s := ScanFrom(cat, ns, first, last, parent, target); s.Hit? && s.dataOff + 12 <= ns
    ensures var s := ScanFrom(cat, ns, first, last, parent, target);
            && Len(s.node + 1, ns) <= |cat|
            && Be32(Node(Patch(cat, Len(n, ns) + off, w), ns, s.node), s.dataOff + 8)
            == Be32(Node(cat, ns, s.node), s.dataOff + 8)
  {
    hide ScanFrom, ScanNode, KeyMatches, Len, Patch, Be32;
    var s := ScanFrom(cat, ns, first, last, parent, target);
    HitNode(cat, ns, first, last, parent, target);
    NodeOfPatch(cat, ns, n, off, w, s.node);
    if s.node == n {
      var node := Node(cat, ns, n);
      var k := HitSlot(n, node, parent, target, 0);
      assert SlotClear(node, k, off, off + |w|);
      FieldsOutside(node, off, w, s.dataOff + 8);
    }
  }

  /** Rewriting a fork record leaves every path lookup as it was. */
  lemma {:induction false} FindOutside(cat: seq<byte>, ns: nat, n: nat, off: nat, w: seq<byte>,
                                       first: nat, last: nat, parts: seq<seq<byte>>, parent: nat)
    requires WindowClear(cat, ns, n, off, |w|)
    ensures FindParts(Patch(cat, Len(n, ns) + off, w), ns, first, last, parts, parent)
         == FindParts(cat, ns, first, last, parts, parent)
    decreases |parts|
  {
    hide ScanFrom, Clear, Len, Patch, Be32, Node;
    if parts != [] {
      ScanOutside(cat, ns, n, off, w, first, last, parent, parts[0]);
      var s := ScanFrom(cat, ns, first, last, parent, parts[0]);
      if s.Hit? && s.dataOff + 12 <= ns {
        ScanHit(cat, ns, first, last, parent, parts[0]);
        FolderIdOutside(cat, ns, n, off, w, first, last, parent, parts[0]);
        FindOutside(cat, ns, n, off, w, first, last, parts[1..], Be32(Node(cat, ns, s.node), s.dataOff + 8));
      }
    }
  }
}
