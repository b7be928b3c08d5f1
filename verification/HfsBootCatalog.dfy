/**
  The catalog as the booter reads it, and where that agrees with the host.

  Both programs visit the same slots in the same order. They differ in how they treat a damaged
  slot (the booter skips it, the host raises), in names longer than 127 characters (the booter
  cuts them), in embedded zero characters, and in records of the wrong type (the booter goes on).
  */
module HfsBootCatalog {
  import opened Bytes
  import opened Blocking
  import opened HfsForkRecord
  import opened HfsCatalog

  const NAME_CAP := 127

  // ---------- names ----------

  function BootName(b: seq<byte>, off: nat, chars: nat): (name: seq<byte>)
    requires off + 2 * chars <= |b|
    ensures |name| == chars
  {
    seq(chars, i requires 0 <= i < chars => var c := Be16(b, off + 2 * i); if c < 128 then c else QUESTION)
  }

  lemma {:induction false} CStrWhole(s: seq<byte>)
    requires 0 !in s
    ensures CStr(s) == s
  {
    if s != [] {
      CStrWhole(s[1..]);
      assert s == [s[0]] + s[1..];
    }
  }

  /** When the booter takes a catalog name for a target of at most 127 characters: exactly when the
      host does, or when the name is longer than 127 characters and the target is its first 127. */
  lemma BootNameMatches(b: seq<byte>, off: nat, chars: nat, target: seq<byte>)
    requires off + 2 * chars <= |b| && NoZeroChars(b, off, Min(chars, NAME_CAP)) && |target| <= NAME_CAP
    ensures CStr(BootName(b, off, Min(chars, NAME_CAP))) == target <==>
              || AsciiName(b, off, chars) == target
              || (chars > NAME_CAP && AsciiName(b, off, chars)[..NAME_CAP] == target)
  {
    hide Be16;
    var m := Min(chars, NAME_CAP);
    var x, y := BootName(b, off, m), AsciiName(b, off, chars);
    assert x == y[..m];
    CStrWhole(x);
    if chars <= NAME_CAP {
      assert y[..m] == y;
    }
  }

  // ---------- one node ----------

  datatype NodeScan = NodeHit(dataOff: nat) | NodeMiss | NodeUndefined

  /** The booter's loop over the slots of a leaf, looking for a folder or for a file. The result is
      undefined where it would depend on bytes beyond the node. */
  function BootScanNode(node: seq<byte>, parent: nat, target: seq<byte>, folder: bool, r: nat): NodeScan
    requires 12 <= |node| && 2 * (Records(node) + 1) <= |node|
    decreases Records(node) - r
  {
    if r >= Records(node) then NodeMiss
    else
      var o := RecOff(node, r);
      if o + 8 >= |node| || DataOff(node, o) + 2 > |node| || Be32(node, o + 2) != parent then
        BootScanNode(node, parent, target, folder, r + 1)
      else
        var chars := Min(NameLen(node, o), NAME_CAP);
        var d := DataOff(node, o);
        if o + 8 + 2 * chars > |node| then NodeUndefined
        else if CStr(BootName(node, o + 8, chars)) != target then BootScanNode(node, parent, target, folder, r + 1)
        else if folder && Be16(node, d) == FOLDER_RECORD then
          if d + 12 > |node| then NodeUndefined else NodeHit(d)
        else if !folder && Be16(node, d) == FILE_RECORD then
          if d + DATA_FORK_OFF + FORK_SIZE > |node| then NodeUndefined else NodeHit(d)
        else BootScanNode(node, parent, target, folder, r + 1)
  }

  /** Names both programs read alike: no zero character, and not cut unless the target is shorter. */
  ghost predicate NameOk(node: seq<byte>, o: nat, longest: nat)
    requires o + 8 <= |node|
  {
    && (NameLen(node, o) <= NAME_CAP || longest < NAME_CAP)
    && (KeyInNode(node, o) ==> NoZeroChars(node, o + 8, Min(NameLen(node, o), NAME_CAP)))
  }

  ghost predicate LeafOk(node: seq<byte>, longest: nat)
    requires 12 <= |node|
  {
    && 2 * (Records(node) + 1) <= |node|
    && forall r :: 0 <= r < Records(node) ==> RecOff(node, r) + 8 <= |node| ==> NameOk(node, RecOff(node, r), longest)
  }

  lemma KeysAgree(node: seq<byte>, o: nat, parent: nat, target: seq<byte>)
    requires KeyInNode(node, o) && NameOk(node, o, |target|) && |target| <= NAME_CAP
    ensures Be32(node, o + 2) == parent && CStr(BootName(node, o + 8, Min(NameLen(node, o), NAME_CAP))) == target
       <==> KeyMatches(node, o, parent, target)
  {
    hide Be32, Be16, CStr, BootName, AsciiName;
    BootNameMatches(node, o + 8, NameLen(node, o), target);
  }

  predicate Fits(node: seq<byte>, d: nat, kind: nat) {
    if kind == FOLDER_RECORD then d + 12 <= |node| else d + DATA_FORK_OFF + FORK_SIZE <= |node|
  }

  /** A node where the host finds the record, or finds nothing, gives the booter the same. */
  lemma {:induction false} NodeScansAgree(id: nat, node: seq<byte>, parent: nat, target: seq<byte>, folder: bool,
                                          r: nat)
    requires 12 <= |node| && 0 < |target| <= NAME_CAP && LeafOk(node, |target|)
    ensures var s := ScanNode(id, node, parent, target, r);
            && (s.Miss? ==> BootScanNode(node, parent, target, folder, r) == NodeMiss)
            && (s.Hit? && s.kind == (if folder then FOLDER_RECORD else FILE_RECORD) && Fits(node, s.dataOff, s.kind) ==>
                  BootScanNode(node, parent, target, folder, r) == NodeHit(s.dataOff))
    decreases Records(node) - r
  {
    hide CStr, BootName, AsciiName, Be32, KeyMatches;
    hide NameOk, NameLen, DataOff, Be16, Records;
    if r < Records(node) && KeyInNode(node, RecOff(node, r)) {
      var o := RecOff(node, r);
      NodeScansAgree(id, node, parent, target, folder, r + 1);
      KeysAgree(node, o, parent, target);
      if o + 8 == |node| {
        ShortName(node, o, parent, target);
      }
    }
  }

  lemma ShortName(node: seq<byte>, o: nat, parent: nat, target: seq<byte>)
    requires KeyInNode(node, o) && o + 8 == |node| && target != []
    ensures !KeyMatches(node, o, parent, target)
  {
  }

  // ---------- the whole catalog ----------

  datatype BootScan = BootHit(node: nat, dataOff: nat) | BootMiss | BootUndefined

  /** `catalog_scan_child` over leaves `n..last`; `size` is the catalog's logical size. */
  function BootScanFrom(cat: seq<byte>, size: nat, ns: nat, n: nat, last: nat, parent: nat, target: seq<byte>,
                        folder: bool): BootScan
    requires 12 <= ns
    decreases last + 1 - n
  {
    if n > last || Len(n, ns) >= size then BootMiss
    else if Len(n + 1, ns) > size then BootUndefined
    else if Len(n + 1, ns) > |cat| then BootMiss
    else
      var node := Node(cat, ns, n);
      if !IsLeaf(node) || Records(node) == 0 || 2 * (Records(node) + 1) > ns then
        BootScanFrom(cat, size, ns, n + 1, last, parent, target, folder)
      else
        match BootScanNode(node, parent, target, folder, 0)
        case NodeHit(d) => BootHit(n, d)
        case NodeUndefined => BootUndefined
        case NodeMiss => BootScanFrom(cat, size, ns, n + 1, last, parent, target, folder)
  }

  /** Every leaf in the range is one both programs read alike. */
  ghost predicate LeavesOk(cat: seq<byte>, ns: nat, first: nat, last: nat, longest: nat) {
    12 <= ns && forall n :: first <= n <= last && Len(n + 1, ns) <= |cat| && IsLeaf(Node(cat, ns, n)) ==>
                  LeafOk(Node(cat, ns, n), longest)
  }

  /** The booter's answer to a key: the host's miss is its miss, and the host's hit of the wanted kind is its hit.
      Where the host raises, or hits a record of the other kind, the booter goes on and may find one. */
  lemma {:induction false} ScansAgree(cat: seq<byte>, size: nat, ns: nat, n: nat, last: nat, parent: nat,
                                      target: seq<byte>, folder: bool)
    requires 0 < |target| <= NAME_CAP && LeavesOk(cat, ns, n, last, |target|) && Len(last + 1, ns) <= size
    ensures var s := ScanFrom(cat, ns, n, last, parent, target);
            && (s.Miss? ==> BootScanFrom(cat, size, ns, n, last, parent, target, folder) == BootMiss)
            && (Suits(s, ns, folder) ==>
                  BootScanFrom(cat, size, ns, n, last, parent, target, folder) == BootHit(s.node, s.dataOff))
    decreases last + 1 - n
  {
    hide Len, Node, ScanNode, BootScanNode, LeafOk, Records;
    if n <= last && Len(n + 1, ns) <= |cat| {
      LenMono(n + 1, last + 1, ns);
      LenNext(n, ns);
      var node := Node(cat, ns, n);
      if IsLeaf(node) {
        NodeScansAgree(n, node, parent, target, folder, 0);
        ScanNodeHit(n, node, parent, target, 0);
        LeafHasRecords(n, node, parent, target);
        LeafTable(node, |target|);
      }
      ScansAgree(cat, size, ns, n + 1, last, parent, target, folder);
    }
  }

  /** A host hit of the kind the booter looks for, with room for what it reads of it. */
  predicate Suits(s: Scan, ns: nat, folder: bool) {
    && s.Hit? && s.kind == (if folder then FOLDER_RECORD else FILE_RECORD)
    && (if folder then s.dataOff + 12 <= ns else s.dataOff + DATA_FORK_OFF + FORK_SIZE <= ns)
  }

  lemma LeafTable(node: seq<byte>, longest: nat)
    requires 12 <= |node| && LeafOk(node, longest)
    ensures 2 * (Records(node) + 1) <= |node|
  {
  }

  lemma LeafHasRecords(id: nat, node: seq<byte>, parent: nat, target: seq<byte>)
    requires 12 <= |node|
    ensures ScanNode(id, node, parent, target, 0).Hit? ==> Records(node) != 0
  {
  }

  // ---------- paths ----------

  datatype BootFind = BootFile(node: nat, dataOff: nat) | BootNone | BootFindUndefined

  function Cut127(part: seq<byte>): seq<byte> {
    part[..Min(|part|, NAME_CAP)]
  }

  function BootFindParts(cat: seq<byte>, size: nat, ns: nat, first: nat, last: nat, parts: seq<seq<byte>>,
                         parent: nat): BootFind
    requires 12 <= ns
    decreases |parts|
  {
    if parts == [] then BootNone
    else
      match BootScanFrom(cat, size, ns, first, last, parent, Cut127(parts[0]), |parts| > 1)
      case BootMiss => BootNone
      case BootUndefined => BootFindUndefined
      case BootHit(n, d) =>
        if |parts| == 1 then BootFile(n, d)
        else if Len(n + 1, ns) > |cat| || d + 12 > ns then BootFindUndefined
        else BootFindParts(cat, size, ns, first, last, parts[1..], Be32(Node(cat, ns, n), d + 8))
  }

  ghost predicate PartsOk(parts: seq<seq<byte>>, longest: nat) {
    longest <= NAME_CAP && forall p :: p in parts ==> 0 < |p| <= longest
  }

  lemma LeavesOkShorter(cat: seq<byte>, ns: nat, first: nat, last: nat, longest: nat, shorter: nat)
    requires LeavesOk(cat, ns, first, last, longest) && shorter <= longest
    ensures LeavesOk(cat, ns, first, last, shorter)
  {
    hide Len, Node, Records, RecOff, NoZeroChars;
    forall n | first <= n <= last && Len(n + 1, ns) <= |cat| && IsLeaf(Node(cat, ns, n))
      ensures LeafOk(Node(cat, ns, n), shorter)
    {
      var node := Node(cat, ns, n);
      assert LeafOk(node, longest);
      forall r | 0 <= r < Records(node) && RecOff(node, r) + 8 <= |node|
        ensures NameOk(node, RecOff(node, r), shorter)
      {
        assert NameOk(node, RecOff(node, r), longest);
      }
    }
  }

  /** The host's lookup follows folders until a component is not there. */
  predicate RunsOut(cat: seq<byte>, ns: nat, first: nat, last: nat, parts: seq<seq<byte>>, parent: nat)
    requires 0 < ns
    decreases |parts|
  {
    if parts == [] then true
    else
      match ScanFrom(cat, ns, first, last, parent, parts[0])
      case Miss => true
      case Raised(_) => false
      case Hit(m, o, kind) =>
        if |parts| == 1 || kind != FOLDER_RECORD || o + 12 > ns then false
        else
          ScanHit(cat, ns, first, last, parent, parts[0]);
          RunsOut(cat, ns, first, last, parts[1..], Be32(Node(cat, ns, m), o + 8))
  }

  /** A file the host finds, the booter finds in the same place; a path that runs out for the host runs out for it. */
  lemma {:induction false} FindsAgree(cat: seq<byte>, size: nat, ns: nat, first: nat, last: nat, parts: seq<seq<byte>>,
                                      parent: nat, longest: nat)
    requires 12 <= ns && PartsOk(parts, longest) && LeavesOk(cat, ns, first, last, longest) && Len(last + 1, ns) <= size
    ensures var f := FindParts(cat, ns, first, last, parts, parent);
            && (f.File? && f.dataOff + DATA_FORK_OFF + FORK_SIZE <= ns ==>
                  BootFindParts(cat, size, ns, first, last, parts, parent) == BootFile(f.node, f.dataOff))
            && (RunsOut(cat, ns, first, last, parts, parent) ==>
                  f == Failed(RuntimeError) && BootFindParts(cat, size, ns, first, last, parts, parent) == BootNone)
    decreases |parts|
  {
    hide Len, Node, ScanFrom, BootScanFrom, LeavesOk, Be32;
    if parts != [] {
      var part := parts[0];
      assert part in parts && Cut127(part) == part;
      LeavesOkShorter(cat, ns, first, last, longest, |part|);
      ScanHit(cat, ns, first, last, parent, part);
      var s := ScanFrom(cat, ns, first, last, parent, part);
      ScansAgree(cat, size, ns, first, last, parent, part, |parts| > 1);
      if |parts| > 1 && Suits(s, ns, true) {
        FindsAgree(cat, size, ns, first, last, parts[1..], Be32(Node(cat, ns, s.node), s.dataOff + 8), longest);
      }
    }
  }
}
