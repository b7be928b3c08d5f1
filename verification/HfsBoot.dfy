/** The booter's mount, catalog scan and file read, over one disk and one bounce buffer. */
module HfsBoot {
  import opened Bytes
  import opened Blocking
  import opened Machine
  import opened HfsExtents
  import opened HfsForkRecord
  import opened HfsCatalog
  import opened HfsVolume
  import opened HfsBooter
  import opened HfsBootCatalog

  const SLACK := 512

  // ---------- small string loops ----------

  /** `ascii_name_from_utf16be` into a buffer of 128 characters. */
  method NameFromUtf16(mem: seq<byte>, at: nat, chars: nat) returns (name: seq<byte>)
    requires at + 2 * Min(chars, NAME_CAP) <= |mem|
    ensures name == BootName(mem, at, Min(chars, NAME_CAP))
  {
    hide Be16;
    name := [];
    var i := 0;
    while i < chars && |name| + 1 < 128
      invariant |name| == i <= Min(chars, NAME_CAP)
      invariant name == BootName(mem, at, Min(chars, NAME_CAP))[..i]
    {
      var ch := Be16(mem, at + 2 * i);
      name := name + [if ch < 128 then ch else QUESTION];
      i := i + 1;
    }
  }

  /** `s_eq` on two zero-terminated strings, given as what stands before their terminators. */
  method StrEq(a: seq<byte>, b: seq<byte>) returns (same: bool)
    ensures same <==> CStr(a) == CStr(b)
  {
    var i := 0;
    assert a[0..] == a && b[0..] == b;
    while i < |a| && i < |b| && a[i] != 0 && b[i] != 0
      invariant 0 <= i <= |a| && i <= |b|
      invariant CStr(a) == CStr(b) <==> CStr(a[i..]) == CStr(b[i..])
    {
      assert a[i..][1..] == a[i + 1..] && b[i..][1..] == b[i + 1..];
      CStrHead(a[i..]);
      CStrHead(b[i..]);
      if a[i] != b[i] {
        return false;
      }
      i := i + 1;
    }
    CStrEnd(a[i..]);
    CStrEnd(b[i..]);
    return (i == |a| || a[i] == 0) && (i == |b| || b[i] == 0);
  }

  lemma CStrHead(s: seq<byte>)
    requires s != [] && s[0] != 0
    ensures CStr(s) != [] && CStr(s)[0] == s[0] && CStr(s)[1..] == CStr(s[1..])
  {
  }

  lemma CStrEnd(s: seq<byte>)
    ensures CStr(s) == [] <==> s == [] || s[0] == 0
  {
  }

  method SkipSlashes(path: seq<byte>, pos: nat) returns (i: nat)
    requires pos <= |path|
    ensures pos <= i <= |path| && (i < |path| ==> path[i] != SLASH)
    ensures Parts(path[i..]) == Parts(path[pos..])
  {
    i := pos;
    while i < |path| && path[i] == SLASH
      invariant pos <= i <= |path| && Parts(path[i..]) == Parts(path[pos..])
    {
      assert path[i..][1..] == path[i + 1..];
      i := i + 1;
    }
  }

  /** The copy loop of one component; characters beyond the buffer are dropped. */
  method TakeComponent(path: seq<byte>, start: nat) returns (j: nat, comp: seq<byte>)
    requires start <= |path|
    ensures j == start + CompLen(path[start..]) <= |path|
    ensures comp == Cut127(path[start..j])
  {
    hide Cut127;
    ghost var rest := path[start..];
    ghost var k := CompLen(rest);
    CutNothing(path[start..start]);
    j, comp := start, [];
    while j < |path| && path[j] != SLASH
      invariant start <= j <= start + k <= |path| && comp == Cut127(path[start..j])
      invariant |comp| == Min(j - start, NAME_CAP)
    {
      assert rest[j - start] == path[j];
      assert path[start..j + 1] == path[start..j] + [path[j]];
      CutMore(path[start..j], path[j]);
      if |comp| + 1 < 128 {
        comp := comp + [path[j]];
      }
      j := j + 1;
    }
    assert j < |path| ==> rest[j - start] == path[j];
  }

  lemma CutNothing(s: seq<byte>)
    requires s == []
    ensures Cut127(s) == []
  {
  }

  lemma CutMore(s: seq<byte>, c: byte)
    ensures Cut127(s + [c]) == if |s| < NAME_CAP then Cut127(s) + [c] else Cut127(s)
  {
  }

  /** `split_next_path_component`: the next component, cut to 127 characters, and what follows it. */
  method SplitNext(path: seq<byte>, start: nat) returns (next: int, comp: seq<byte>)
    requires start <= |path|
    ensures next == -1 <==> Parts(path[start..]) == []
    ensures next != -1 ==>
              && start < next <= |path| && comp == Cut127(Parts(path[start..])[0])
              && Parts(path[next..]) == Parts(path[start..])[1..]
  {
    hide Cut127;
    var i := SkipSlashes(path, start);
    if i == |path| {
      return -1, [];
    }
    var j;
    j, comp := TakeComponent(path, i);
    ghost var rest := path[i..];
    assert rest[0] == path[i] && rest[..j - i] == path[i..j] && rest[j - i..] == path[j..];
    next := SkipSlashes(path, j);
  }

  method PathHasMore(path: seq<byte>, pos: nat) returns (more: bool)
    requires pos <= |path|
    ensures more <==> Parts(path[pos..]) != []
  {
    var i := SkipSlashes(path, pos);
    return i < |path|;
  }

  // ---------- one leaf in the bounce buffer ----------

  /** The slot loop of `catalog_scan_child` over the node at the start of the bounce buffer. */
  method ScanBuffer(mem: seq<byte>, ns: nat, parent: nat, target: seq<byte>, folder: bool)
    returns (found: bool, dataOff: nat)
    requires 12 <= ns <= NODE_BUF && NODE_BUF + SLACK <= |mem|
    requires 2 * (Records(mem[..ns]) + 1) <= ns && 0 !in target
    ensures found ==> dataOff + 2 <= ns
    ensures BootScanNode(mem[..ns], parent, target, folder, 0).NodeHit? ==>
              found && dataOff == BootScanNode(mem[..ns], parent, target, folder, 0).dataOff
    ensures BootScanNode(mem[..ns], parent, target, folder, 0).NodeMiss? ==> !found
  {
    hide BootName, CStr, Be32, Be16;
    ghost var node := mem[..ns];
    NodeFields(mem, ns);
    var num := Be16(mem, 10);
    var idx := ns - 2 * (num + 1);
    var r := 0;
    CStrWhole(target);
    while r < num
      invariant 0 <= r <= num
      invariant var s := BootScanNode(node, parent, target, folder, 0);
                s.NodeUndefined? || s == BootScanNode(node, parent, target, folder, r)
    {
      var recOff := Be16(mem, idx + 2 * r);
      r := r + 1;
      if recOff + 8 >= ns {
        continue;
      }
      var d := recOff + 2 + Be16(mem, recOff);
      if d + 2 > ns {
        continue;
      }
      var chars := Be16(mem, recOff + 6);
      var name := NameFromUtf16(mem, recOff + 8, chars);
      var same := StrEq(name, target);
      if recOff + 8 + 2 * Min(chars, NAME_CAP) <= ns {
        SameBootName(mem, ns, recOff + 8, Min(chars, NAME_CAP));
      }
      if Be32(mem, recOff + 2) != parent || !same {
        continue;
      }
      var kind := Be16(mem, d);
      if (folder && kind == FOLDER_RECORD) || (!folder && kind == FILE_RECORD) {
        return true, d;
      }
    }
    return false, 0;
  }

  lemma NodeFields(mem: seq<byte>, ns: nat)
    requires ns <= |mem|
    ensures forall o: nat :: o + 2 <= ns ==> Be16(mem[..ns], o) == Be16(mem, o)
    ensures forall o: nat :: o + 4 <= ns ==> Be32(mem[..ns], o) == Be32(mem, o)
  {
  }

  lemma SameBootName(mem: seq<byte>, ns: nat, at: nat, chars: nat)
    requires ns <= |mem| && at + 2 * chars <= ns
    ensures BootName(mem, at, chars) == BootName(mem[..ns], at, chars)
  {
    NodeFields(mem, ns);
  }

  // ---------- the booter ----------

  /** `catalog_range`: the leaf range of the header, or every node but the first. */
  function BootRange(first: nat, last: nat, totalNodes: nat, size: nat, ns: nat): (r: (nat, nat))
    requires 0 < ns
  {
    var total := if totalNodes == 0 then size % TWO32 / ns else totalNodes;
    if first == 0 || last == 0 || first >= total || last >= total || last < first then
      if total > 1 then (1, total - 1) else (0, 0)
    else (first, last)
  }

  /** The scan visits the header's range when that lies in the tree, and otherwise every node but the header node; a
      header without a node count is taken to have as many as the fork holds. */
  lemma BootRangeNodes(first: nat, last: nat, totalNodes: nat, size: nat, ns: nat, n: nat)
    requires 0 < ns && size < TWO32 && (totalNodes == 0 ==> 2 * ns <= size)
    requires totalNodes != 1
    ensures var r, total := BootRange(first, last, totalNodes, size, ns), if totalNodes == 0 then size / ns
        else totalNodes;
            r.0 <= n <= r.1 <==> if 0 < first <= last < total then first <= n <= last else 0 < n < total
  {
    if totalNodes == 0 {
      assert 2 * ns / ns == 2;
      DivMono(2 * ns, size, ns);
    }
  }

  lemma DivMono(a: nat, b: nat, d: nat)
    requires 0 < d && a <= b
    ensures a / d <= b / d
  {
    assert a == a / d * d + a % d && b == b / d * d + b % d;
    if b / d < a / d {
      MulLe(b / d + 1, a / d, d);
    }
  }

  /** Everything the catalog loop relies on: blocks on the disk and readable, no wrap, and every
      node of the range inside one block, because the bounce buffer is also the destination. */
  ghost predicate CatalogClean(d: Disk, bs: nat, fk: ForkMeta, ns: nat, first: nat, last: nat) {
    && 0 < bs <= NODE_BUF && bs % SECTOR == 0 && 12 <= ns <= NODE_BUF
    && OnDisk(d, bs, Blocks(fk.ext))
    && (forall b :: b in Blocks(fk.ext) ==> BlockReadable(d, bs, b))
    && (forall n: nat :: first <= n <= last ==> OneBlock(bs, ns, n))
    && Len(last + 1, ns) <= TWO32
  }

  predicate OneBlock(bs: nat, ns: nat, n: nat)
    requires 0 < bs
  {
    Within(Len(n, ns), bs) + ns <= bs
  }

  lemma CleanNode(d: Disk, bs: nat, fk: ForkMeta, ns: nat, first: nat, last: nat, n: nat)
    requires CatalogClean(d, bs, fk, ns, first, last) && first <= n <= last && Len(n + 1, ns) <= fk.size
    ensures ReadOk(d, bs, fk, Len(n, ns), ns) <==> Len(n + 1, ns) <= Len(|Blocks(fk.ext)|, bs)
    ensures Len(n, ns) < fk.size && Clamped(fk, Len(n, ns), ns) == ns && OneBlock(bs, ns, n)
  {
    hide Blocks, BlockOf, Within, BlockReadable, OnDisk, OneBlock;
    LenNext(n, ns);
    var off, blocks := Len(n, ns), Blocks(fk.ext);
    if Len(n + 1, ns) <= Len(|blocks|, bs) {
      forall i | off <= i < off + ns ensures ByteReadable(d, bs, blocks, i) {
        Inside(i, |blocks|, bs);
        assert blocks[BlockOf(i, bs)] in blocks;
      }
    }
    assert ReadOk(d, bs, fk, off, ns) ==> ByteReadable(d, bs, blocks, off + ns - 1);
  }

  /** The start of the catalog, as far as the mount asks for it and the fork goes, is there and readable. */
  ghost predicate HeaderRead(d: Disk, blockSize: nat, fk: ForkMeta) {
    var bs := Effective(blockSize);
    && 0 < bs && HEADER_FIELDS <= fk.size && OnDisk(d, bs, Blocks(fk.ext))
    && ReadOk(d, bs, fk, 0, HEADER_NODE)
  }

  /** Where in the catalog the header fields are taken from: the block its first 4096 bytes end in. */
  function HeaderBase(blockSize: nat, fk: ForkMeta): nat
    requires 0 < fk.size
  {
    LastStart(Effective(blockSize), 0, Min(HEADER_NODE, fk.size))
  }

  /** They are the header's own exactly when those bytes lie in one block. */
  lemma BaseZero(blockSize: nat, fk: ForkMeta)
    requires 0 < fk.size
    ensures HeaderBase(blockSize, fk) == 0 <==> Min(HEADER_NODE, fk.size) <= Effective(blockSize)
  {
    var bs, n := Effective(blockSize), Min(HEADER_NODE, fk.size);
    if n > bs {
      LenMono(1, BlockOf(n - 1, bs), bs);
    }
  }

  lemma HeaderCovered(d: Disk, blockSize: nat, fk: ForkMeta)
    requires HeaderRead(d, blockSize, fk) && Effective(blockSize) % SECTOR == 0
    ensures var bs, n := Effective(blockSize), Min(HEADER_NODE, fk.size);
            && HEADER_FIELDS <= n <= Len(|Blocks(fk.ext)|, bs)
            && HeaderBase(blockSize, fk) + bs <= Len(|Blocks(fk.ext)|, bs) && HEADER_FIELDS <= bs
  {
    hide Blocks, Len, BlockOf, BlockReadable, OnDisk;
    var bs, n := Effective(blockSize), Min(HEADER_NODE, fk.size);
    assert ByteReadable(d, bs, Blocks(fk.ext), n - 1);
    var q := BlockOf(n - 1, bs);
    LenMono(q + 1, |Blocks(fk.ext)|, bs);
    LenNext(q, bs);
  }

  lemma HeaderTaken(mem: seq<byte>, d: Disk, blockSize: nat, fk: ForkMeta)
    requires HeaderRead(d, blockSize, fk) && Effective(blockSize) % SECTOR == 0 && HEADER_NODE <= |mem|
    requires var bs, n := Effective(blockSize), Min(HEADER_NODE, fk.size);
             if n <= bs then Holds(mem, d, bs, Blocks(fk.ext), 0, n) else Scrambled(mem, d, bs, Blocks(fk.ext), 0, n)
    ensures var cat, base := Seen(d, Effective(blockSize), Blocks(fk.ext)), HeaderBase(blockSize, fk);
            && base + HEADER_FIELDS <= |cat|
            && forall o: nat :: o + 4 <= HEADER_FIELDS ==>
                 Be32(mem[..HEADER_NODE], o) == Be32(cat, base + o)
                     && Be16(mem[..HEADER_NODE], o) == Be16(cat, base + o)
  {
    hide Holds, Scrambled, Seen, Len, Blocks, BlockOf, ReadOk, OnDisk, Be32, Be16;
    var bs, n, blocks := Effective(blockSize), Min(HEADER_NODE, fk.size), Blocks(fk.ext);
    var cat, base := Seen(d, bs, blocks), HeaderBase(blockSize, fk);
    HeaderCovered(d, blockSize, fk);
    BaseZero(blockSize, fk);
    if n <= bs {
      HoldsView(mem, d, bs, blocks, 0, n);
      SubSlice(cat, 0, mem[..n], 0, HEADER_FIELDS);
      SubSlice(mem, 0, mem[..n], 0, HEADER_FIELDS);
    } else {
      AlignedReadRight(mem, d, bs, blocks, 0, n);
      SubSlice(cat, base, mem[..bs], 0, HEADER_FIELDS);
      SubSlice(mem, 0, mem[..bs], 0, HEADER_FIELDS);
    }
    var node0 := mem[..HEADER_NODE];
    assert node0[0..HEADER_FIELDS] == mem[0..HEADER_FIELDS] == cat[base..base + HEADER_FIELDS];
    FieldsFrom(node0, cat, base, HEADER_FIELDS);
  }

  lemma FieldsFrom(a: seq<byte>, b: seq<byte>, base: nat, n: nat)
    requires n <= |a| && base + n <= |b| && a[0..n] == b[base..base + n]
    ensures forall o: nat :: o + 4 <= n ==> Be32(a, o) == Be32(b, base + o) && Be16(a, o) == Be16(b, base + o)
  {
    forall o: nat | o + 4 <= n ensures Be32(a, o) == Be32(b, base + o) && Be16(a, o) == Be16(b, base + o) {
      SubSlice(a, 0, a[0..n], o, 4);
      SubSlice(b, base, a[0..n], o, 4);
      SameFields(a, b, o, base + o, 4);
    }
  }

  /** A fork record as the booter keeps it: all eight slots. */
  function ForkOf(b: seq<byte>, o: nat): ForkMeta
    requires o + FORK_SIZE <= |b|
  {
    ForkMeta(Be64(b, o), RawExtents(b, o))
  }

  lemma PastEnd(d: Disk, bs: nat, fk: ForkMeta, off: nat, len: nat)
    requires 0 < bs
    ensures off >= fk.size ==> !ReadOk(d, bs, fk, off, len)
  {
  }

  lemma NodeHeld(mem: seq<byte>, d: Disk, bs: nat, blocks: seq<nat>, ns: nat, n: nat)
    requires 0 < bs && OnDisk(d, bs, blocks) && Len(n + 1, ns) <= Len(|blocks|, bs) && ns <= |mem|
    requires Holds(mem, d, bs, blocks, Len(n, ns), ns)
    ensures mem[..ns] == Node(Seen(d, bs, blocks), ns, n)
  {
    hide Seen, Holds;
    HoldsView(mem, d, bs, blocks, Len(n, ns), ns);
  }

  /** The node size the mount settles on. */
  function MountedSize(ns: nat): nat {
    if 0 < ns <= NODE_BUF then ns else HEADER_NODE
  }

  class Booter {
    const disk: Disk
    /** The bounce buffer and what follows it in memory. */
    const secbuf: array<byte>
    var blockSize: nat
    var nodeSize: nat
    var firstLeaf: nat
    var lastLeaf: nat
    var totalNodes: nat
    var catalog: ForkMeta

    constructor (disk: Disk)
      ensures this.disk == disk && fresh(secbuf) && secbuf.Length == 8192 + 512
    {
      this.disk := disk;
      secbuf := new byte[NODE_BUF + SLACK];
      blockSize, nodeSize, firstLeaf, lastLeaf, totalNodes := 0, 0, 0, 0, 0;
      catalog := ForkMeta(0, []);
    }

    function Range(): (nat, nat)
      reads this
    {
      BootRange(firstLeaf, lastLeaf, totalNodes, catalog.size, Effective(nodeSize))
    }

    ghost predicate Ready()
      reads this
    {
      && NODE_BUF + SLACK <= secbuf.Length
      && CatalogClean(disk, Effective(blockSize), catalog, Effective(nodeSize), Range().0, Range().1)
    }

    ghost function CatBytes(): seq<byte>
      requires Ready()
      reads this
    {
      Seen(disk, Effective(blockSize), Blocks(catalog.ext))
    }

    /** `hfsplus_mount`. The B-tree header is read into the bounce buffer itself, so its fields come from the block
        the first 4096 bytes of the catalog end in. When that read fails, defaults stand. */
    method Mount() returns (ok: bool)
      requires NODE_BUF + SLACK <= secbuf.Length
      requires Readable(disk, 2, 1) ==> Be32(Header(disk.data), 40) % SECTOR == 0
      modifies this, secbuf
      ensures ok <==> Readable(disk, 2, 1) && GoodSignature(Header(disk.data))
      ensures ok ==> blockSize == Be32(Header(disk.data), 40) && catalog == ForkOf(Header(disk.data), CATALOG_FILE_OFF)
      ensures ok && HeaderRead(disk, blockSize, catalog) ==>
                var cat, base := Seen(disk, Effective(blockSize), Blocks(catalog.ext)),
                    HeaderBase(blockSize, catalog);
                && base + HEADER_FIELDS <= |cat| && nodeSize == MountedSize(Be16(cat, base + NODE_SIZE_OFF))
                && firstLeaf == Be32(cat, base + FIRST_LEAF_OFF) && lastLeaf == Be32(cat, base + LAST_LEAF_OFF)
                && totalNodes == Be32(cat, base + TOTAL_NODES_OFF)
      ensures ok && !ReadOk(disk, Effective(blockSize), catalog, 0, HEADER_NODE) ==>
                nodeSize == HEADER_NODE && firstLeaf == lastLeaf == 1
                    && totalNodes == catalog.size % TWO32 / HEADER_NODE
    {
      hide Blocks, Seen, Len, RawExtents, Be64, Holds, Scrambled, ByteReadable, Be32, Be16, OnDisk, ForkOf,
           HeaderBase;
      ok := DiskRead(disk, 2, 1, secbuf);
      if !ok {
        return;
      }
      var vh := secbuf[..HDR_LEN];
      var sig := Be16(vh, 0);
      if sig != 0x482B && sig != 0x4858 {
        return false;
      }
      blockSize, catalog := Be32(vh, 40), ForkOf(vh, CATALOG_FILE_OFF);
      nodeSize, firstLeaf, lastLeaf := HEADER_NODE, 1, 1;
      totalNodes := catalog.size % TWO32 / nodeSize;
      var read := ForkRead(disk, secbuf, blockSize, catalog, 0, secbuf, HEADER_NODE);
      if read {
        var node0 := secbuf[..HEADER_NODE];
        if HeaderRead(disk, blockSize, catalog) {
          HeaderTaken(secbuf[..], disk, blockSize, catalog);
          assert secbuf[..][..HEADER_NODE] == node0;
        }
        var ns := Be16(node0, NODE_SIZE_OFF);
        if ns != 0 && ns <= NODE_BUF {
          nodeSize := ns;
        }
        firstLeaf, lastLeaf := Be32(node0, FIRST_LEAF_OFF), Be32(node0, LAST_LEAF_OFF);
        totalNodes := Be32(node0, TOTAL_NODES_OFF);
      }
      ok := true;
    }

    /** Read node `n` into the bounce buffer. */
    method ReadNode(n: nat) returns (ok: bool)
      requires Ready() && Range().0 <= n <= Range().1
      modifies secbuf
      ensures var ns := Effective(nodeSize);
              && (Len(n, ns) >= catalog.size ==> !ok)
              && (Len(n + 1, ns) <= catalog.size ==> (ok <==> Len(n + 1, ns) <= |CatBytes()|))
              && (ok && Len(n + 1, ns) <= catalog.size ==> secbuf[..ns] == Node(CatBytes(), ns, n))
    {
      hide Blocks, BlockOf, Within, Len, BlockReadable, Seen, Holds, OnDisk, Scrambled, ByteReadable,
           ReadOk, Node, CatalogClean;
      var ns := Effective(nodeSize);
      NodeOffset(n, ns);
      LenNext(n, ns);
      ghost var bs, blocks := Effective(blockSize), Blocks(catalog.ext);
      if Len(n + 1, ns) <= catalog.size {
        CleanNode(disk, bs, catalog, ns, Range().0, Range().1, n);
      }
      PastEnd(disk, bs, catalog, Len(n, ns), ns);
      CleanSizes();
      ok := ForkRead(disk, secbuf, blockSize, catalog, n * ns % TWO32, secbuf, ns);
      if ok && Len(n + 1, ns) <= catalog.size {
        NodeHeld(secbuf[..], disk, bs, blocks, ns, n);
      }
    }

    /** `catalog_scan_child`, looking for a folder or for a file. */
    method ScanChild(parent: nat, target: seq<byte>, folder: bool) returns (found: bool, folderId: nat, fork: ForkMeta)
      requires Ready() && 0 !in target
      modifies secbuf
      ensures var ns := Effective(nodeSize);
              var s := BootScanFrom(CatBytes(), catalog.size, ns, Range().0, Range().1, parent, target, folder);
              && (s.BootMiss? ==> !found)
              && (s.BootHit? ==>
                    && found && Len(s.node + 1, ns) <= |CatBytes()|
                    && var node := Node(CatBytes(), ns, s.node);
                       && (folder ==> s.dataOff + 12 <= ns && folderId == Be32(node, s.dataOff + 8))
                       && (!folder ==> && s.dataOff + DATA_FORK_OFF + FORK_SIZE <= ns
                                       && fork == ForkOf(node, s.dataOff + DATA_FORK_OFF)))
    {
      hide Blocks, Seen, BootScanNode, CatalogClean, Node, Len, RawExtents, Be64, Be32;
      CleanSizes();
      var ns := Effective(nodeSize);
      ghost var cat := CatBytes();
      var first, last := Range().0, Range().1;
      folderId, fork := 0, ForkMeta(0, []);
      var n := first;
      while n <= last
        invariant first <= n
        invariant var s := BootScanFrom(cat, catalog.size, ns, first, last, parent, target, folder);
                  s.BootUndefined? || s == BootScanFrom(cat, catalog.size, ns, n, last, parent, target, folder)
        decreases if n <= last then last - n + 1 else 0
      {
        var ok := ReadNode(n);
        if !ok {
          LenNext(n, ns);
          return false, 0, fork;
        }
        var mem := secbuf[..];
        var kind, num := mem[8], Be16(mem, 10);
        NodePrefix(mem, ns);
        if kind == LEAF_KIND && num != 0 && 2 * (num + 1) <= ns {
          var hit, d := ScanBuffer(mem, ns, parent, target, folder);
          if hit {
            if folder {
              folderId := Be32(mem, d + 8);
            } else {
              fork := ForkOf(mem, d + DATA_FORK_OFF);
            }
            found := true;
            HitFields(mem, ns, parent, target, folder);
            return;
          }
        }
        n := n + 1;
      }
      return false, 0, fork;
    }

    /** Where the path leads: `hfsplus_read_file` up to the file's fork. */
    method FindFork(path: seq<byte>) returns (found: bool, fork: ForkMeta)
      requires Ready() && 0 !in path
      modifies secbuf
      ensures var ns := Effective(nodeSize);
              var f := BootFindParts(CatBytes(), catalog.size, ns, Range().0, Range().1, Parts(path), ROOT_ID);
              && (f.BootNone? ==> !found)
              && (f.BootFile? ==>
                    && found && Len(f.node + 1, ns) <= |CatBytes()| && f.dataOff + DATA_FORK_OFF + FORK_SIZE <= ns
                    && fork == ForkOf(Node(CatBytes(), ns, f.node), f.dataOff + DATA_FORK_OFF))
    {
      hide Blocks, Seen, CatalogClean, Node, Len, RawExtents, Be64, Be32, BootScanFrom, CompLen, Effective;
      ghost var cat := CatBytes();
      fork := ForkMeta(0, []);
      if |path| == 0 {
        return false, fork;
      }
      CleanSizes();
      var parent: nat, pos: nat := ROOT_ID, 0;
      assert path[0..] == path;
      while true
        invariant pos <= |path|
        invariant var f := BootFindParts(cat, catalog.size, Effective(nodeSize), Range().0, Range().1, Parts(path),
                                         ROOT_ID);
                  f.BootFindUndefined? ||
                  f == BootFindParts(cat, catalog.size, Effective(nodeSize), Range().0, Range().1, Parts(path[pos..]),
                                     parent)
        decreases |path| - pos
      {
        ghost var parts := Parts(path[pos..]);
        PartsNoZero(path[pos..]);
        var next, comp := SplitNext(path, pos);
        if next == -1 {
          return false, fork;
        }
        assert parts[0] in parts;
        var more := PathHasMore(path, next);
        if more {
          var hit, folderId, _ := ScanChild(parent, comp, true);
          if !hit {
            return false, fork;
          }
          parent, pos := folderId, next;
        } else {
          var hit, _, fk := ScanChild(parent, comp, false);
          return hit, fk;
        }
      }
    }

    /** `hfsplus_read_file`: follow the path, then read the file's whole data fork. */
    method ReadFile(path: seq<byte>, dst: array<byte>, cap: nat) returns (ok: bool, size: nat)
      requires Ready() && 0 !in path && dst != secbuf && cap <= dst.Length
      modifies secbuf, dst
      ensures var ns := Effective(nodeSize);
              var f := BootFindParts(CatBytes(), catalog.size, ns, Range().0, Range().1, Parts(path), ROOT_ID);
              && (f.BootNone? ==> !ok)
              && (f.BootFile? ==>
                    && Len(f.node + 1, ns) <= |CatBytes()| && f.dataOff + DATA_FORK_OFF + FORK_SIZE <= ns
                    && var bs := Effective(blockSize);
                       var fk := ForkOf(Node(CatBytes(), ns, f.node), f.dataOff + DATA_FORK_OFF);
                       && (ok <==> fk.size <= cap && ReadOk(disk, bs, fk, 0, fk.size))
                       && (ok ==> size == fk.size && Holds(dst[..], disk, bs, Blocks(fk.ext), 0, size)))
    {
      hide Blocks, Seen, CatalogClean, Node, Len, ForkOf, BootFindParts, Holds, ByteReadable, Within;
      CleanSizes();
      var found, fk := FindFork(path);
      if !found || fk.size > cap {
        return false, 0;
      }
      ok := ForkRead(disk, secbuf, blockSize, fk, 0, dst, fk.size);
      size := if ok then fk.size else 0;
    }

    lemma CleanSizes()
      requires Ready()
      ensures 12 <= Effective(nodeSize) <= NODE_BUF && blockSize % SECTOR == 0 && 0 < Effective(blockSize)
      ensures OnDisk(disk, Effective(blockSize), Blocks(catalog.ext))
    {
    }

    /** The 32-bit product that gives a node's offset does not wrap. */
    lemma NodeOffset(n: nat, ns: nat)
      requires Ready() && ns == Effective(nodeSize) && n <= Range().1
      ensures n * ns % TWO32 == Len(n, ns)
    {
      LenMul(n, ns);
      LenMono(n + 1, Range().1 + 1, ns);
      LenNext(n, ns);
    }
  }

  lemma {:induction false} PartsNoZero(path: seq<byte>)
    requires 0 !in path
    ensures forall p :: p in Parts(path) ==> 0 !in p && 0 !in Cut127(p)
    decreases |path|
  {
    if path != [] {
      PartsNoZero(path[if path[0] == SLASH then 1 else CompLen(path)..]);
    }
  }

  lemma NodePrefix(mem: seq<byte>, ns: nat)
    requires 12 <= ns <= |mem|
    ensures IsLeaf(mem[..ns]) <==> mem[8] == LEAF_KIND
    ensures Records(mem[..ns]) == Be16(mem, 10)
  {
  }

  lemma {:induction false} HitInNode(node: seq<byte>, parent: nat, target: seq<byte>, folder: bool, r: nat)
    requires 12 <= |node| && 2 * (Records(node) + 1) <= |node|
    ensures var s := BootScanNode(node, parent, target, folder, r);
            s.NodeHit? ==> if folder then s.dataOff + 12 <= |node| else s.dataOff + DATA_FORK_OFF + FORK_SIZE <= |node|
    decreases Records(node) - r
  {
    if r < Records(node) {
      HitInNode(node, parent, target, folder, r + 1);
    }
  }

  /** The fields of a hit read the same from the node and from the buffer it lies in. */
  lemma HitFields(mem: seq<byte>, ns: nat, parent: nat, target: seq<byte>, folder: bool)
    requires 12 <= ns <= |mem| && 2 * (Records(mem[..ns]) + 1) <= ns
    ensures var s := BootScanNode(mem[..ns], parent, target, folder, 0);
            s.NodeHit? ==>
              && (folder ==> s.dataOff + 12 <= ns && Be32(mem, s.dataOff + 8) == Be32(mem[..ns], s.dataOff + 8))
              && (!folder ==> && s.dataOff + DATA_FORK_OFF + FORK_SIZE <= ns
                              && Be64(mem, s.dataOff + DATA_FORK_OFF) == Be64(mem[..ns], s.dataOff + DATA_FORK_OFF)
                              && RawExtents(mem, s.dataOff + DATA_FORK_OFF)
                                  == RawExtents(mem[..ns], s.dataOff + DATA_FORK_OFF))
  {
    hide BootScanNode, Be64, RawExtents, Be32;
    var node := mem[..ns];
    var s := BootScanNode(node, parent, target, folder, 0);
    HitInNode(node, parent, target, folder, 0);
    if s.NodeHit? && folder {
      NodeFields(mem, ns);
    } else if s.NodeHit? {
      var o := s.dataOff + DATA_FORK_OFF;
      assert mem[o..o + FORK_SIZE] == node[o..o + FORK_SIZE];
      SameFork(mem, o, node, o);
    }
  }
}
