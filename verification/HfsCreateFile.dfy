/** Creating a file in the root folder, end to end. */
module HfsCreateFile {
  import opened Bytes
  import opened Blocking
  import opened HfsExtents
  import opened HfsBitmap
  import opened HfsForkRecord
  import opened HfsCatalog
  import opened HfsVolume
  import opened HfsReplace
  import opened HfsImage
  import opened HfsCreate
  import opened HfsCreateVolume

  const FILE_COUNT_OFF := 32
  const NEXT_ID_OFF := 60

  // ---------- a contiguous run of blocks ----------

  lemma {:induction false} LenSum(a: nat, b: nat, bs: nat)
    ensures Len(a + b, bs) == Len(a, bs) + Len(b, bs)
  {
    if b != 0 {
      LenSum(a, b - 1, bs);
    }
  }

  lemma RunPhys(bs: nat, s: nat, n: nat, i: nat)
    requires 0 < bs && i < Len(n, bs)
    ensures PhysAt(bs, Run(s, n), i) == Len(s, bs) + i
  {
    Inside(i, n, bs);
    Cut(i, bs);
    LenSum(s, BlockOf(i, bs), bs);
  }

  /** The bytes of a run are one slice of the image. */
  lemma RunView(img: seq<byte>, bs: nat, s: nat, n: nat)
    requires 0 < bs && InImage(img, bs, Run(s, n)) && Len(s + n, bs) <= |img|
    ensures Len(s, bs) + Len(n, bs) <= |img|
    ensures View(img, bs, Run(s, n)) == img[Len(s, bs)..Len(s, bs) + Len(n, bs)]
  {
    hide Len, PhysAt, Run;
    LenSum(s, n, bs);
    var v := View(img, bs, Run(s, n));
    forall i | 0 <= i < |v| ensures v[i] == img[Len(s, bs) + i] {
      RunPhys(bs, s, n, i);
      assert v[i] == ByteAt(img, bs, Run(s, n), i);
    }
  }

  lemma InRun(bs: nat, s: nat, n: nat, p: nat)
    requires 0 < bs && Len(s, bs) <= p < Len(s, bs) + Len(n, bs)
    ensures BlockOf(p, bs) in Run(s, n)
  {
    hide Len, BlockOf, Within;
    LenSum(s, n, bs);
    Inside(p, s, bs);
    Inside(p, s + n, bs);
    assert Run(s, n)[BlockOf(p, bs) - s] == BlockOf(p, bs);
  }

  /** Payload and padding written at the run's first byte fill the run exactly. */
  ghost function RunWritten(img: seq<byte>, bs: nat, s: nat, payload: seq<byte>, pad: nat): (r: seq<byte>)
    requires Len(s, bs) + |payload| + pad <= |img|
    ensures |r| == |img|
  {
    Patch(Patch(img, Len(s, bs), payload), Len(s, bs) + |payload|, Zeros(pad))
  }

  lemma RunEffect(v: Volume, img: seq<byte>, s: nat, n: nat, payload: seq<byte>, pad: nat)
    requires Geometry(v, img) && s + n <= v.totalBlocks && |payload| + pad == Len(n, v.blockSize)
    ensures Len(s, v.blockSize) + |payload| + pad <= |img| && InVolume(v, Run(s, n))
    ensures var img' := RunWritten(img, v.blockSize, s, payload, pad);
            && SameOutside(v.blockSize, img, img', Run(s, n)) && Geometry(v, img')
            && ViewOf(v, img', Run(s, n)) == payload + Zeros(pad)
  {
    hide Len, BlockOf, Patch, View, Run, Zeros;
    var bs := v.blockSize;
    LenSum(s, n, bs);
    LenMono(s + n, v.totalBlocks, bs);
    var img' := RunWritten(img, bs, s, payload, pad);
    PatchAppend(img, Len(s, bs), payload, Zeros(pad));
    WholePatch(img, Len(s, bs), payload + Zeros(pad));
    forall p | 0 <= p < |img| && BlockOf(p, bs) !in Run(s, n) ensures img'[p] == img[p] {
      if Len(s, bs) <= p < Len(s, bs) + Len(n, bs) {
        InRun(bs, s, n, p);
      }
    }
    InVolumeInImage(v, img', Run(s, n));
    RunView(img', bs, s, n);
  }

  lemma WholePatch(b: seq<byte>, o: nat, d: seq<byte>)
    requires o + |d| <= |b|
    ensures |Patch(b, o, d)| == |b| && Patch(b, o, d)[o..o + |d|] == d
    ensures forall p :: 0 <= p < |b| && !(o <= p < o + |d|) ==> Patch(b, o, d)[p] == b[p]
  {
  }

  // ---------- the new leaf written ----------

  ghost predicate RunOwned(v: Volume, img: seq<byte>, nb: seq<nat>)
    requires Geometry(v, img) && Forks(v)
  {
    NoDup(nb) && forall b :: b in nb ==> b < v.totalBlocks && IsUsed(Bitmap(v, img), b)
  }

  lemma CreatedOwners(v: Volume, cat: seq<byte>, files: seq<FileLoc>, rec: seq<byte>, name: seq<byte>, id: nat,
                      fork: Fork, bitmap: seq<byte>, nb: seq<nat>)
    requires 0 < v.blockSize && v.totalBlocks <= 8 * |bitmap| && 12 <= v.nodeSize
    requires RecordFits(v, cat, files, rec) && IsFileRecord(rec, name, id, fork) && Locs(v, cat, files)
    requires Ownership(v, cat, files, bitmap) && OwnersApartFrom(v, cat, files, nb)
    requires NoDup(nb) && (forall b :: b in nb ==> b < v.totalBlocks && IsUsed(bitmap, b)) && Blocks(fork.extents) == nb
    ensures Locs(v, Cat2(v, cat, files, rec), files + [NewLoc(v, cat, files, name)])
    ensures Ownership(v, Cat2(v, cat, files, rec), files + [NewLoc(v, cat, files, name)], bitmap)
  {
    hide NoDup, IsUsed, Apart, IsFileRecord, LeafReady, Gap, Locs, Blocks, Cat2, NewLoc, Owned;
    var cat', all := Cat2(v, cat, files, rec), files + [NewLoc(v, cat, files, name)];
    LocsCreated(v, cat, files, rec, name, id, fork);
    forall i: nat | i < 4 + |files|
      ensures Owned(v, cat', all, i) == if i == 3 + |files| then nb else Owned(v, cat, files, i)
    {
      CreatedOwned(v, cat, files, rec, name, id, fork, i);
    }
    forall i: nat | i < 3 + |all| ensures OwnerOk(v, cat', all, bitmap, i) {
      if i < 3 + |files| {
        assert OwnerOk(v, cat, files, bitmap, i);
      }
    }
    forall i: nat, j: nat | i < 3 + |all| && j < 3 + |all| ensures OwnersApart(v, cat', all, i, j) {
      if i < 3 + |files| && j < 3 + |files| {
        assert OwnersApart(v, cat, files, i, j);
      } else if i < 3 + |files| {
        assert Apart(Owned(v, cat, files, i), nb);
      } else if j < 3 + |files| {
        assert Apart(Owned(v, cat, files, j), nb);
        ApartSym(Owned(v, cat, files, j), nb);
      }
    }
  }

  lemma CreatedOwned(v: Volume, cat: seq<byte>, files: seq<FileLoc>, rec: seq<byte>, name: seq<byte>, id: nat,
                     fork: Fork, i: nat)
    requires 0 < v.blockSize && 12 <= v.nodeSize && i < 4 + |files|
    requires RecordFits(v, cat, files, rec) && IsFileRecord(rec, name, id, fork) && Locs(v, cat, files)
    requires Locs(v, Cat2(v, cat, files, rec), files + [NewLoc(v, cat, files, name)])
    ensures Owned(v, Cat2(v, cat, files, rec), files + [NewLoc(v, cat, files, name)], i)
         == if i == 3 + |files| then Blocks(fork.extents) else Owned(v, cat, files, i)
  {
    hide IsFileRecord, RecordFits, Blocks, Cat2, NewLoc, Clear, WindowClear, FileFork;
    if i == 3 + |files| {
      NewWindow(v, cat, files, rec, name, id, fork);
    } else if i >= 3 {
      assert files[i - 3] in files;
      OldWindow(v, cat, files, rec, files[i - 3]);
    }
  }

  /** One more file with this fork and these bytes; every other file as it was. */
  ghost predicate Added(v: Volume, free: nat, img: seq<byte>, free': nat, img': seq<byte>, files: seq<FileLoc>,
                        loc: FileLoc, fork: Fork, bytes: seq<byte>)
    requires WellFormed(v, free, img, files)
  {
    var all := files + [loc];
    && WellFormed(v, free', img', all) && loc in all
    && FileFork(v, CatView(v, img'), loc) == fork
    && FileBytes(v, free', img', all, |files|) == bytes
    && forall j :: 0 <= j < |files| ==> Kept(v, free, img, free', img', files, all, j)
  }

  ghost predicate Kept(v: Volume, free: nat, img: seq<byte>, free': nat, img': seq<byte>, files: seq<FileLoc>,
                       all: seq<FileLoc>, j: nat)
    requires WellFormed(v, free, img, files) && WellFormed(v, free', img', all) && j < |files| && j < |all|
  {
    && files[j] in files && all[j] in all && all[j] == files[j]
    && FileFork(v, CatView(v, img'), files[j]) == FileFork(v, CatView(v, img), files[j])
    && FileBytes(v, free', img', all, j) == FileBytes(v, free, img, files, j)
  }

  ghost function LeafWritten(v: Volume, img: seq<byte>, files: seq<FileLoc>, rec: seq<byte>): (r: seq<byte>)
    requires Geometry(v, img) && Forks(v) && RecordFits(v, CatView(v, img), files, rec)
    ensures |r| == |img|
  {
    InVolumeInImage(v, img, CatBlocks(v));
    LenNext(v.firstLeaf, v.nodeSize);
    Scatter(img, v.blockSize, CatBlocks(v), Len(v.firstLeaf, v.nodeSize),
            Inserted(Node(CatView(v, img), v.nodeSize, v.firstLeaf), rec))
  }

  lemma LeafEffect(v: Volume, img: seq<byte>, files: seq<FileLoc>, rec: seq<byte>)
    requires Geometry(v, img) && Forks(v) && RecordFits(v, CatView(v, img), files, rec) && NoDup(CatBlocks(v))
    ensures var img' := LeafWritten(v, img, files, rec);
            && SameOutside(v.blockSize, img, img', CatBlocks(v)) && Geometry(v, img')
            && CatView(v, img') == Cat2(v, CatView(v, img), files, rec)
  {
    hide Scatter, View, NoDup, Len, Inserted, LeafShape, Gap, BlockOf, Blocks, Patch;
    var node := Inserted(Node(CatView(v, img), v.nodeSize, v.firstLeaf), rec);
    InVolumeInImage(v, img, CatBlocks(v));
    LenNext(v.firstLeaf, v.nodeSize);
    ScatterSameOutside(v, img, CatBlocks(v), Len(v.firstLeaf, v.nodeSize), node);
    ScatterView(img, v.blockSize, CatBlocks(v), Len(v.firstLeaf, v.nodeSize), node);
  }

  lemma FileCreated(v: Volume, free: nat, img: seq<byte>, files: seq<FileLoc>, rec: seq<byte>, name: seq<byte>, id: nat,
                    fork: Fork, nb: seq<nat>)
    requires WellFormed(v, free, img, files) && RecordFits(v, CatView(v, img), files, rec)
    requires IsFileRecord(rec, name, id, fork)
    requires OwnersApartFrom(v, CatView(v, img), files, nb) && RunOwned(v, img, nb) && Blocks(fork.extents) == nb
    requires InVolume(v, nb)
    ensures Added(v, free, img, free, LeafWritten(v, img, files, rec), files, NewLoc(v, CatView(v, img), files, name),
                  fork, ViewOf(v, img, nb))
  {
    hide NoDup, IsUsed, IsFileRecord, LeafReady, Gap, Blocks, Cat2, NewLoc, Clear, Apart, View, Len, ScanFrom,
         HeaderOk, Header, FreeSet, Ownership, HitsListed, LeafWritten, FileFork, Locs, InVolume, BlockOf, Owned;
    var cat, loc := CatView(v, img), NewLoc(v, CatView(v, img), files, name);
    var img', all := LeafWritten(v, img, files, rec), files + [loc];
    SystemOwners(v, free, img, files);
    LeafEffect(v, img, files, rec);
    OutsideHeader(v, img, img', CatBlocks(v));
    ApartSym(AllocBlocks(v), CatBlocks(v));
    OutsideView(v, img, img', CatBlocks(v), AllocBlocks(v));
    CreatedOwners(v, cat, files, rec, name, id, fork, Bitmap(v, img), nb);
    HitsCreated(v, cat, files, rec, name, id, fork);
    assert WellFormed(v, free, img', all);
    NewWindow(v, cat, files, rec, name, id, fork);
    assert all[|files|] == loc && OwnersApartFrom(v, cat, files, nb) && Apart(Owned(v, cat, files, 2), nb);
    CatOwner(v, cat, files);
    ApartSym(CatBlocks(v), nb);
    OutsideView(v, img, img', CatBlocks(v), nb);
    forall j | 0 <= j < |files| ensures Kept(v, free, img, free, img', files, all, j) {
      KeptFile(v, free, img, img', files, rec, all, j);
    }
  }

  lemma KeptFile(v: Volume, free: nat, img: seq<byte>, img': seq<byte>, files: seq<FileLoc>, rec: seq<byte>,
                 all: seq<FileLoc>, j: nat)
    requires WellFormed(v, free, img, files) && RecordFits(v, CatView(v, img), files, rec)
    requires WellFormed(v, free, img', all)
    requires SameOutside(v.blockSize, img, img', CatBlocks(v))
    requires CatView(v, img') == Cat2(v, CatView(v, img), files, rec)
    requires files <= all && j < |files|
    ensures Kept(v, free, img, free, img', files, all, j)
  {
    hide NoDup, Apart, IsUsed, LeafReady, Gap, Blocks, Cat2, Clear, View, Len, ScanFrom, HeaderOk, Header, FreeSet,
         Ownership, HitsListed, FileFork, InVolume, BlockOf, WindowClear;
    var cat := CatView(v, img);
    FileApart(v, free, img, files, j);
    assert files[j] in files && all[j] in all;
    OldWindow(v, cat, files, rec, files[j]);
    ApartSym(CatBlocks(v), FileBlocks(v, cat, files[j]));
    OutsideView(v, img, img', CatBlocks(v), FileBlocks(v, cat, files[j]));
  }

  lemma CatOwner(v: Volume, cat: seq<byte>, files: seq<FileLoc>)
    requires 0 < v.blockSize && Locs(v, cat, files)
    ensures Owned(v, cat, files, 2) == CatBlocks(v)
  {
  }

  // ---------- the stages of a creation ----------

  /** A run has been marked and perhaps written, and the catalog has not changed yet: the volume is
      well formed without the run, every file is untouched, and the run belongs to nobody. */
  ghost predicate Staged(v: Volume, free: nat, img: seq<byte>, free': nat, img': seq<byte>, files: seq<FileLoc>,
                         nb: seq<nat>)
    requires WellFormed(v, free, img, files)
  {
    && WellFormed(v, free', img', files) && FilesSame(v, free, img, free', img', files)
    && CatView(v, img') == CatView(v, img)
    && OwnersApartFrom(v, CatView(v, img'), files, nb) && RunOwned(v, img', nb) && InVolume(v, nb)
  }

  lemma StageMark(v: Volume, free: nat, img: seq<byte>, files: seq<FileLoc>, nb: seq<nat>, bitmap': seq<byte>)
    requires WellFormed(v, free, img, files) && NoDup(nb) && InVolume(v, nb)
    requires forall b :: b in nb ==> b < v.totalBlocks && !IsUsed(Bitmap(v, img), b)
    requires Remarked(Bitmap(v, img), bitmap', nb, [])
    ensures |nb| <= free < TWO32 && |bitmap'| == v.alloc.size
    ensures Staged(v, free, img, free - |nb|, BitmapWritten(v, img, free - |nb|, bitmap'), files, nb)
  {
    hide WellFormed, FilesSame, OwnersApartFrom, NoDup, BitmapWritten, IsUsed;
    MarkedWellFormed(v, free, img, files, nb, bitmap');
    RunMarked(v, img, files, free, nb, bitmap');
  }

  lemma RunMarked(v: Volume, img: seq<byte>, files: seq<FileLoc>, free: nat, nb: seq<nat>, bitmap': seq<byte>)
    requires WellFormed(v, free, img, files)
    requires Remarked(Bitmap(v, img), bitmap', nb, []) && InVolume(v, nb)
    ensures forall b :: b in nb ==> b < v.totalBlocks && IsUsed(bitmap', b)
  {
    hide IsUsed, HeaderOk, Header, Locs, HitsListed, Ownership, FreeSet, View;
  }

  lemma SameTwice(v: Volume, f0: nat, a: seq<byte>, f1: nat, b: seq<byte>, f2: nat, c: seq<byte>, files: seq<FileLoc>)
    requires WellFormed(v, f0, a, files) && WellFormed(v, f1, b, files) && WellFormed(v, f2, c, files)
    requires FilesSame(v, f0, a, f1, b, files) && FilesSame(v, f1, b, f2, c, files)
    ensures FilesSame(v, f0, a, f2, c, files)
  {
    hide WellFormed, CatView, FileBytes, FileFork;
  }

  lemma StageData(v: Volume, free: nat, img: seq<byte>, free': nat, img': seq<byte>, files: seq<FileLoc>,
                  s: nat, n: nat, payload: seq<byte>, pad: nat)
    requires WellFormed(v, free, img, files) && Staged(v, free, img, free', img', files, Run(s, n))
    requires s + n <= v.totalBlocks && |payload| + pad == Len(n, v.blockSize)
    ensures Len(s, v.blockSize) + |payload| + pad <= |img'|
    ensures var img2 := RunWritten(img', v.blockSize, s, payload, pad);
            && Staged(v, free, img, free', img2, files, Run(s, n))
            && ViewOf(v, img2, Run(s, n)) == payload + Zeros(pad) && Header(img2) == Header(img')
            && SameOutside(v.blockSize, img', img2, Run(s, n)) && Bitmap(v, img2) == Bitmap(v, img')
  {
    hide FilesSame, Run, Len, View, Zeros, RunWritten, HeaderOk, Header, Locs, HitsListed, Ownership, FreeSet,
         SameOutside, OwnersApartFrom, NoDup, IsUsed;
    RunEffect(v, img', s, n, payload, pad);
    var img2 := RunWritten(img', v.blockSize, s, payload, pad);
    UnownedWrite(v, free', img', img2, files, Run(s, n));
    SameTwice(v, free, img, free', img', free', img2, files);
  }

  /** The two counters in the volume header. */
  lemma CounterPatch(v: Volume, free: nat, h: seq<byte>, count: nat, next: nat)
    requires |h| == HDR_LEN && HeaderOk(v, free, h) && count < TWO32 && next < TWO32
    ensures HeaderOk(v, free, Patch(Patch(h, FILE_COUNT_OFF, EncBe32(count)), NEXT_ID_OFF, EncBe32(next)))
  {
    hide ForkAt, EncBe32, Be32, Be16, Patch, HeaderOk;
    PatchKeeps(v, free, h, FILE_COUNT_OFF, EncBe32(count));
    PatchKeeps(v, free, Patch(h, FILE_COUNT_OFF, EncBe32(count)), NEXT_ID_OFF, EncBe32(next));
  }

  lemma PatchKeeps(v: Volume, free: nat, h: seq<byte>, off: nat, e: seq<byte>)
    requires |h| == HDR_LEN && HeaderOk(v, free, h) && |e| == 4 && (off == FILE_COUNT_OFF || off == NEXT_ID_OFF)
    ensures HeaderOk(v, free, Patch(h, off, e))
  {
    hide ForkAt, Be32, Patch;
    var h' := Patch(h, off, e);
    FieldsOutside(h, off, e, 0);
    FieldsOutside(h, off, e, 40);
    FieldsOutside(h, off, e, 44);
    FieldsOutside(h, off, e, FREE_BLOCKS_OFF);
    SliceOfPatch(h, off, e, ALLOCATION_FILE_OFF, FORK_SIZE);
    SameFork(h', ALLOCATION_FILE_OFF, h, ALLOCATION_FILE_OFF);
    SliceOfPatch(h, off, e, CATALOG_FILE_OFF, FORK_SIZE);
    SameFork(h', CATALOG_FILE_OFF, h, CATALOG_FILE_OFF);
  }

  lemma StageHeader(v: Volume, free: nat, img: seq<byte>, free': nat, img': seq<byte>, files: seq<FileLoc>,
                    nb: seq<nat>, h: seq<byte>)
    requires WellFormed(v, free, img, files) && Staged(v, free, img, free', img', files, nb)
    requires |h| == HDR_LEN && HeaderOk(v, free', h)
    ensures HDR_OFF + HDR_LEN <= |img'| && Staged(v, free, img, free', Patch(img', HDR_OFF, h), files, nb)
    ensures ViewOf(v, Patch(img', HDR_OFF, h), nb) == ViewOf(v, img', nb)
    ensures SameOutside(v.blockSize, img', Patch(img', HDR_OFF, h), [HdrBlock(v)])
    ensures Bitmap(v, Patch(img', HDR_OFF, h)) == Bitmap(v, img')
  {
    hide FilesSame, Len, View, HeaderOk, Header, HitsListed, Ownership, FreeSet, SameOutside, NoDup, IsUsed, Patch,
         Apart, InVolume;
    var img2 := Patch(img', HDR_OFF, h);
    HeaderRewritten(v, free', img', files, h);
    SameTwice(v, free, img, free', img', free', img2, files);
    assert Apart(Owned(v, CatView(v, img'), files, 0), nb);
    ApartSym([HdrBlock(v)], nb);
    OutsideView(v, img', img2, [HdrBlock(v)], nb);
  }

  lemma StageLeaf(v: Volume, free: nat, img: seq<byte>, free': nat, img': seq<byte>, files: seq<FileLoc>,
                  nb: seq<nat>, rec: seq<byte>, name: seq<byte>, id: nat, fork: Fork)
    requires WellFormed(v, free, img, files) && Staged(v, free, img, free', img', files, nb)
    requires RecordFits(v, CatView(v, img), files, rec) && IsFileRecord(rec, name, id, fork)
    requires Blocks(fork.extents) == nb
    ensures Added(v, free, img, free', LeafWritten(v, img', files, rec), files, NewLoc(v, CatView(v, img), files, name),
                  fork, ViewOf(v, img', nb))
    ensures CatView(v, LeafWritten(v, img', files, rec)) == Cat2(v, CatView(v, img), files, rec)
  {
    hide HeaderOk, Header, Locs, HitsListed, Ownership, FreeSet, OwnersApartFrom, NoDup, IsUsed, IsFileRecord, Blocks,
         LeafWritten, InVolume, RunOwned, LeafReady, Gap, NewLoc, CatView, FileBytes, FileFork, Cat2;
    FileCreated(v, free', img', files, rec, name, id, fork, nb);
    CatalogAfter(v, free', img', files, rec);
    var loc := NewLoc(v, CatView(v, img), files, name);
    var all, img2 := files + [loc], LeafWritten(v, img', files, rec);
    forall j | 0 <= j < |files| ensures Kept(v, free, img, free', img2, files, all, j) {
      assert Kept(v, free', img', free', img2, files, all, j);
    }
  }

  lemma CatalogAfter(v: Volume, free: nat, img: seq<byte>, files: seq<FileLoc>, rec: seq<byte>)
    requires WellFormed(v, free, img, files) && RecordFits(v, CatView(v, img), files, rec)
    ensures Geometry(v, LeafWritten(v, img, files, rec))
    ensures CatView(v, LeafWritten(v, img, files, rec)) == Cat2(v, CatView(v, img), files, rec)
  {
    hide NoDup, HeaderOk, Header, HitsListed, Ownership, FreeSet, View, LeafReady, Gap, Cat2, LeafWritten;
    SystemOwners(v, free, img, files);
    LeafEffect(v, img, files, rec);
  }

  // ---------- the insertion into the leaf ----------

  lemma Rewrite(b: seq<byte>, o: nat)
    requires o + 2 <= |b|
    ensures Patch(b, o, EncBe16(Be16(b, o))) == b
  {
  }

  /** Every word of the offset table can be read; a table longer than the node wraps to its end. */
  predicate TableRead(node: seq<byte>)
    requires 12 <= |node|
  {
    forall i :: 0 <= i <= Records(node) ==> SlotInNode(node, i)
  }

  /** The offset table read from the node, slot 0 first. */
  method ReadTable(node: seq<byte>) returns (table: Option<seq<nat>>)
    requires 12 <= |node|
    ensures table.Some? <==> TableRead(node)
    ensures table.Some? ==> IsTable(node, table.value)
  {
    var records := Be16(node, 10);
    var index := |node| - 2 * (records + 1);
    var words: seq<nat> := [];
    for i := 0 to records + 1
      invariant |words| == i
      invariant forall k :: 0 <= k < i ==> SlotInNode(node, k) && words[k] < TWO16 && words[k] == RecOff(node, k)
    {
      var pos := if index + 2 * i < 0 then index + 2 * i + |node| else index + 2 * i;
      if pos < 0 || pos + 2 > |node| {
        assert !SlotInNode(node, i);
        return None;
      }
      words := words + [Be16(node, pos)];
    }
    return Some(words);
  }

  predicate IsTable(node: seq<byte>, table: seq<nat>)
    requires 12 <= |node|
  {
    && |table| == Records(node) + 1
    && forall k :: 0 <= k <= Records(node) ==> SlotInNode(node, k) && table[k] < TWO16 && table[k] == RecOff(node, k)
  }

  /** The record fits between the free offset and the longer table. */
  predicate Roomy(node: seq<byte>, rec: seq<byte>) {
    12 <= |node| < TWO16 && SlotInNode(node, 0) && 0 <= Gap(node, |rec|) && 12 <= |rec|
  }

  function NewIndex(node: seq<byte>, rec: seq<byte>): (index: nat)
    requires Roomy(node, rec)
    ensures 12 <= NewOff(node) + |rec| <= index == |node| - 2 * (Records(node) + 2)
  {
    |node| - 2 * (Records(node) + 2)
  }

  lemma OldWord(node: seq<byte>, rec: seq<byte>, i: nat)
    requires Roomy(node, rec) && 2 <= i < Records(node) + 2
    ensures var p := NewIndex(node, rec) + 2 * i;
            p + 2 <= |node| && SlotInNode(node, i - 1) && Be16(Insertion(node, rec), p) == RecOff(node, i - 1) < TWO16
  {
    hide Patch, EncBe16, Be16, Records, NewOff;
    var index, p := NewIndex(node, rec), NewIndex(node, rec) + 2 * i;
    var a := Patch(node, NewOff(node), rec);
    var n, w := EncBe16(Records(node) + 1), EncBe16(NewOff(node) + |rec|) + EncBe16(NewOff(node));
    FieldsOutside(node, NewOff(node), rec, p);
    FieldsOutside(a, 10, n, p);
    FieldsOutside(Patch(a, 10, n), index, w, p);
  }

  lemma LeafBounds(node: seq<byte>)
    requires LeafShape(node)
    ensures 12 <= |node| < TWO16 && 1 <= Records(node) && 2 * (Records(node) + 1) <= |node|
    ensures SlotInNode(node, 0) && RecOff(node, 0) >= FIRST_RECORD
  {
  }

  /** The words of a table put one after the other. */
  function WordsPut(b: seq<byte>, index: nat, words: seq<nat>): (r: seq<byte>)
    requires index + 2 * |words| <= |b| && forall i :: 0 <= i < |words| ==> words[i] < TWO16
    ensures |r| == |b|
  {
    if words == [] then b
    else
      var n := |words| - 1;
      Patch(WordsPut(b, index, words[..n]), index + 2 * n, EncBe16(words[n]))
  }

  method PutTable(b: seq<byte>, index: nat, words: seq<nat>) returns (r: seq<byte>)
    requires index + 2 * |words| <= |b| && forall i :: 0 <= i < |words| ==> words[i] < TWO16
    ensures r == WordsPut(b, index, words)
  {
    hide Patch, EncBe16;
    r := b;
    for i := 0 to |words|
      invariant r == WordsPut(b, index, words[..i])
    {
      assert words[..i + 1][..i] == words[..i];
      r := Patch(r, index + 2 * i, EncBe16(words[i]));
    }
    assert words[..|words|] == words;
  }

  /** The words the new table holds: two new ones in front of the old table without its first. */
  predicate NewWords(node: seq<byte>, len: nat, words: seq<nat>)
    requires 12 <= |node| && SlotInNode(node, 0)
  {
    && |words| == Records(node) + 2 && words[0] == NewOff(node) + len && words[1] == NewOff(node)
    && (forall i :: 0 <= i < |words| ==> words[i] < TWO16)
    && forall i :: 2 <= i < |words| ==> SlotInNode(node, i - 1) && words[i] == RecOff(node, i - 1)
  }

  lemma WordsNone(b: seq<byte>, index: nat, words: seq<nat>)
    requires index <= |b|
    ensures words[..0] == [] && WordsPut(b, index, []) == b
  {
  }

  lemma WordsStep(b: seq<byte>, index: nat, words: seq<nat>, i: nat)
    requires index + 2 * |words| <= |b| && (forall k :: 0 <= k < |words| ==> words[k] < TWO16) && 0 < i <= |words|
    ensures WordsPut(b, index, words[..i]) == Patch(WordsPut(b, index, words[..i - 1]), index + 2 * (i - 1),
                                                    EncBe16(words[i - 1]))
  {
    hide Patch, EncBe16;
    assert words[..i][..i - 1] == words[..i - 1];
  }

  lemma {:induction false} TablePut(node: seq<byte>, rec: seq<byte>, b: seq<byte>, words: seq<nat>, i: nat)
    requires Roomy(node, rec) && NewWords(node, |rec|, words) && i <= |words| == Records(node) + 2
    requires forall k :: 0 <= k < |words| ==> words[k] < TWO16
    requires b == Patch(Patch(node, NewOff(node), rec), 10, EncBe16(Records(node) + 1))
    ensures WordsPut(b, NewIndex(node, rec), words[..i])
         == if i == 0 then b
            else if i == 1 then Patch(b, NewIndex(node, rec), EncBe16(words[0]))
            else Insertion(node, rec)
  {
    hide EncBe16, Patch, Be16, RecOff, Gap, NewOff, WordsPut, Insertion, SlotPos;
    var index := NewIndex(node, rec);
    WordsNone(b, index, words);
    if i != 0 {
      TablePut(node, rec, b, words, i - 1);
      WordsStep(b, index, words, i);
      if i == 2 {
        TwoWords(node, rec, b);
      } else if i > 2 {
        OldStep(node, rec, i - 1);
      }
    }
  }

  /** Store the record above the free space and write the whole offset table again. */
  method InsertRecord(node: seq<byte>, table: seq<nat>, rec: seq<byte>) returns (r: Option<seq<byte>>)
    requires 12 <= |node| < TWO16 && IsTable(node, table) && 12 <= |rec|
    ensures SlotInNode(node, 0) && (r.Some? <==> 0 <= Gap(node, |rec|))
    ensures r.Some? ==> r.value == Insertion(node, rec)
  {
    hide EncBe16, Patch, Be16, Insertion, WordsPut, SlotPos;
    var records := Be16(node, 10);
    var newOff := table[0] + table[0] % 2;
    var newFree := newOff + |rec|;
    var newIndex := |node| - 2 * (records + 2);
    if newFree > newIndex {
      return None;
    }
    var out := Patch(node, newOff, rec);
    out := Patch(out, 10, EncBe16(records + 1));
    var newTable := [newFree, newOff] + table[1..];
    TablePut(node, rec, out, newTable, |newTable|);
    assert newTable[..|newTable|] == newTable;
    out := PutTable(out, newIndex, newTable);
    return Some(out);
  }

  /** The words past the first two rewrite themselves. */
  lemma OldStep(node: seq<byte>, rec: seq<byte>, i: nat)
    requires Roomy(node, rec) && 2 <= i < Records(node) + 2
    ensures var p := NewIndex(node, rec) + 2 * i;
            && p + 2 <= |node| && SlotInNode(node, i - 1) && RecOff(node, i - 1) < TWO16
            && Patch(Insertion(node, rec), p, EncBe16(RecOff(node, i - 1))) == Insertion(node, rec)
  {
    hide EncBe16, Patch, Be16, Insertion, Gap;
    OldWord(node, rec, i);
    Rewrite(Insertion(node, rec), NewIndex(node, rec) + 2 * i);
  }

  lemma TwoWords(node: seq<byte>, rec: seq<byte>, b: seq<byte>)
    requires Roomy(node, rec)
    requires b == Patch(Patch(node, NewOff(node), rec), 10, EncBe16(Records(node) + 1))
    ensures var index := NewIndex(node, rec);
            && NewOff(node) + |rec| < TWO16
            && Patch(Patch(b, index, EncBe16(NewOff(node) + |rec|)), index + 2, EncBe16(NewOff(node)))
            == Insertion(node, rec)
  {
    hide EncBe16, Patch, Be16;
    PatchAppend(b, NewIndex(node, rec), EncBe16(NewOff(node) + |rec|), EncBe16(NewOff(node)));
  }

  // ---------- lookups afterwards ----------

  /** A hit in the first leaf, when at least eight free bytes precede its offset table, is a record below the free
      space. */
  lemma HitBelow(v: Volume, cat: seq<byte>, files: seq<FileLoc>, parent: nat, target: seq<byte>)
    requires LeafReady(v, cat, files) && 12 <= v.nodeSize && target != []
    requires 8 <= FreeBytes(Node(cat, v.nodeSize, v.firstLeaf))
    requires var s := ScanFrom(cat, v.nodeSize, v.firstLeaf, v.lastLeaf, parent, target);
             s.Hit? && s.node == v.firstLeaf
    ensures var s := ScanFrom(cat, v.nodeSize, v.firstLeaf, v.lastLeaf, parent, target);
            12 <= s.dataOff && s.dataOff + 12 <= RecOff(Node(cat, v.nodeSize, v.firstLeaf), 0)
  {
    hide ScanFrom, Len, Node, IsLeaf, SlotBelow, LeafShape;
    HitNode(cat, v.nodeSize, v.firstLeaf, v.lastLeaf, parent, target);
    var node := Node(cat, v.nodeSize, v.firstLeaf);
    FreeSlotMiss(v.firstLeaf, node, parent, target);
    var k := HitSlot(v.firstLeaf, node, parent, target, 1);
    AboveSlot(node, k);
  }

  function FreeBytes(node: seq<byte>): int
    requires 12 <= |node| && SlotInNode(node, 0)
  {
    |node| - 2 * (Records(node) + 1) - RecOff(node, 0)
  }

  lemma AboveSlot(node: seq<byte>, k: nat)
    requires LeafShape(node) && 1 <= k < Records(node)
    ensures SlotInNode(node, k) && SlotBelow(node, RecOff(node, k), RecOff(node, 0))
  {
  }

  /** Slot 0 points at zeroed free space, so it names nothing. */
  lemma FreeSlotMiss(id: nat, node: seq<byte>, parent: nat, target: seq<byte>)
    requires LeafShape(node) && target != [] && 8 <= FreeBytes(node)
    ensures ScanNode(id, node, parent, target, 0) == ScanNode(id, node, parent, target, 1)
  {
    hide SlotBelow, KeyMatches, Be16, Be32;
    ZeroSlot(node, RecOff(node, 0), parent, target);
  }

  lemma FolderIdCreated(v: Volume, cat: seq<byte>, files: seq<FileLoc>, rec: seq<byte>, parent: nat, target: seq<byte>)
    requires RecordFits(v, cat, files, rec) && 12 <= v.nodeSize && target != [] && 8 <= |rec|
    requires var s := ScanFrom(cat, v.nodeSize, v.firstLeaf, v.lastLeaf, parent, target);
             s.Hit? && s.dataOff + 12 <= v.nodeSize
    ensures var s := ScanFrom(cat, v.nodeSize, v.firstLeaf, v.lastLeaf, parent, target);
            && Len(s.node + 1, v.nodeSize) <= |cat|
            && Be32(Node(Cat2(v, cat, files, rec), v.nodeSize, s.node), s.dataOff + 8)
                == Be32(Node(cat, v.nodeSize, s.node), s.dataOff + 8)
  {
    hide ScanFrom, Len, Node, NewCatalog, LeafShape, Inserted, Be32;
    var s, node := ScanFrom(cat, v.nodeSize, v.firstLeaf, v.lastLeaf, parent, target),
        Node(cat, v.nodeSize, v.firstLeaf);
    HitNode(cat, v.nodeSize, v.firstLeaf, v.lastLeaf, parent, target);
    NewNode(cat, v.nodeSize, v.firstLeaf, rec, s.node);
    if s.node == v.firstLeaf {
      TableRoom(node, rec);
      HitBelow(v, cat, files, parent, target);
      BelowFree(node, rec, s.dataOff + 8, 4);
      SameFields(Inserted(node, rec), node, s.dataOff + 8, s.dataOff + 8, 4);
    }
  }

  /** The lookup in a catalog to which the root's child `name` has been added as the file at `n`, `d`. */
  function After(cat: seq<byte>, ns: nat, first: nat, last: nat, parts: seq<seq<byte>>, parent: nat,
                 name: seq<byte>, n: nat, d: nat): Find
    requires 0 < ns
    decreases |parts|
  {
    if parts == [] then Failed(RuntimeError)
    else if parent == ROOT_ID && parts[0] == name then
      if |parts| == 1 then File(n, d) else Failed(RuntimeError)
    else
      match ScanFrom(cat, ns, first, last, parent, parts[0])
      case Miss => Failed(RuntimeError)
      case Raised(e) => Failed(e)
      case Hit(m, o, kind) =>
        if |parts| == 1 then
          if kind == FILE_RECORD then File(m, o) else Failed(RuntimeError)
        else if kind != FOLDER_RECORD then Failed(RuntimeError)
        else if o + 12 > ns then Failed(StructError)
        else
          ScanHit(cat, ns, first, last, parent, parts[0]);
          After(cat, ns, first, last, parts[1..], Be32(Node(cat, ns, m), o + 8), name, n, d)
  }

  /** Some step of the old lookup asks for the root's child `name`. */
  predicate Asks(cat: seq<byte>, ns: nat, first: nat, last: nat, parts: seq<seq<byte>>, parent: nat, name: seq<byte>)
    requires 0 < ns
    decreases |parts|
  {
    if parts == [] then false
    else if parent == ROOT_ID && parts[0] == name then true
    else
      match ScanFrom(cat, ns, first, last, parent, parts[0])
      case Hit(m, o, kind) =>
        if |parts| == 1 || kind != FOLDER_RECORD || o + 12 > ns then false
        else
          ScanHit(cat, ns, first, last, parent, parts[0]);
          Asks(cat, ns, first, last, parts[1..], Be32(Node(cat, ns, m), o + 8), name)
      case _ => false
  }

  /** The step that asks is the last one. */
  predicate AsksLast(cat: seq<byte>, ns: nat, first: nat, last: nat, parts: seq<seq<byte>>, parent: nat,
                     name: seq<byte>)
    requires 0 < ns && Asks(cat, ns, first, last, parts, parent, name)
    decreases |parts|
  {
    if parent == ROOT_ID && parts[0] == name then |parts| == 1
    else
      var s := ScanFrom(cat, ns, first, last, parent, parts[0]);
      ScanHit(cat, ns, first, last, parent, parts[0]);
      AsksLast(cat, ns, first, last, parts[1..], Be32(Node(cat, ns, s.node), s.dataOff + 8), name)
  }

  /** All of it: a lookup that never asks for the new name leads where it led; one that ends by asking leads to the new
      file; one that has to go on from there fails. */
  lemma {:induction false} AfterLaws(cat: seq<byte>, ns: nat, first: nat, last: nat, parts: seq<seq<byte>>, parent: nat,
                                     name: seq<byte>, n: nat, d: nat)
    requires 0 < ns
    ensures After(cat, ns, first, last, parts, parent, name, n, d)
         == if !Asks(cat, ns, first, last, parts, parent, name) then FindParts(cat, ns, first, last, parts, parent)
            else if AsksLast(cat, ns, first, last, parts, parent, name) then File(n, d)
            else Failed(RuntimeError)
    ensures Asks(cat, ns, first, last, parts, parent, name) && AsksLast(cat, ns, first, last, parts, parent, name) ==>
              FindParts(cat, ns, first, last, parts, parent) == FindParts(cat, ns, first, last, [name], ROOT_ID)
    ensures name !in parts ==> !Asks(cat, ns, first, last, parts, parent, name)
    decreases |parts|
  {
    hide ScanFrom, Len, Node, Be32;
    if parts != [] {
      var s := ScanFrom(cat, ns, first, last, parent, parts[0]);
      ScanHit(cat, ns, first, last, parent, parts[0]);
      if parent == ROOT_ID && parts[0] == name {
        assert |parts| == 1 ==> parts == [name];
      } else if s.Hit? && |parts| > 1 && s.kind == FOLDER_RECORD && s.dataOff + 12 <= ns {
        AfterLaws(cat, ns, first, last, parts[1..], Be32(Node(cat, ns, s.node), s.dataOff + 8), name, n, d);
      }
    }
  }

  /** When the name did not lead to a file, a path that did is kept exactly when its lookup never asks for the name, and
      otherwise fails. */
  lemma KeptExact(cat: seq<byte>, ns: nat, first: nat, last: nat, parts: seq<seq<byte>>, name: seq<byte>, n: nat,
                  d: nat)
    requires 0 < ns && FindParts(cat, ns, first, last, parts, ROOT_ID).File?
    requires FindParts(cat, ns, first, last, [name], ROOT_ID).Failed?
    ensures After(cat, ns, first, last, parts, ROOT_ID, name, n, d) == FindParts(cat, ns, first, last, parts, ROOT_ID)
       <==> !Asks(cat, ns, first, last, parts, ROOT_ID, name)
    ensures Asks(cat, ns, first, last, parts, ROOT_ID, name) ==>
              After(cat, ns, first, last, parts, ROOT_ID, name, n, d) == Failed(RuntimeError)
  {
    hide FindParts, Asks, AsksLast, After;
    AfterLaws(cat, ns, first, last, parts, ROOT_ID, name, n, d);
  }

  /** Every lookup in the new catalog is the one of the old catalog with the file added. */
  lemma {:induction false} PathsCreated(v: Volume, cat: seq<byte>, files: seq<FileLoc>, rec: seq<byte>, name: seq<byte>,
                                        id: nat, fork: Fork, parts: seq<seq<byte>>, parent: nat)
    requires RecordFits(v, cat, files, rec) && 12 <= v.nodeSize && IsFileRecord(rec, name, id, fork)
    requires 8 <= Gap(Node(cat, v.nodeSize, v.firstLeaf), |rec|)
    requires forall p :: p in parts ==> p != []
    ensures FindParts(Cat2(v, cat, files, rec), v.nodeSize, v.firstLeaf, v.lastLeaf, parts, parent)
         == After(cat, v.nodeSize, v.firstLeaf, v.lastLeaf, parts, parent, name, v.firstLeaf,
                  NewData(v, cat, files, name))
    decreases |parts|
  {
    hide ScanFrom, Len, Node, NewCatalog, LeafShape, Gap, IsFileRecord, Be32, NewOff;
    var ns := v.nodeSize;
    if parts != [] {
      assert parts[0] in parts && forall p :: p in parts[1..] ==> p in parts;
      ScanCreated(cat, ns, v.firstLeaf, v.lastLeaf, rec, name, id, fork, parent, parts[0]);
      RecordEven(rec, name, id, fork);
      var s := ScanFrom(cat, ns, v.firstLeaf, v.lastLeaf, parent, parts[0]);
      if s.Hit? && |parts| > 1 && s.kind == FOLDER_RECORD && s.dataOff + 12 <= ns {
        FolderIdCreated(v, cat, files, rec, parent, parts[0]);
        PathsCreated(v, cat, files, rec, name, id, fork, parts[1..], Be32(Node(cat, ns, s.node), s.dataOff + 8));
      }
    }
  }

  /** Where the data of the new record starts in the first leaf. */
  ghost function NewData(v: Volume, cat: seq<byte>, files: seq<FileLoc>, name: seq<byte>): nat
    requires LeafReady(v, cat, files)
  {
    NewOff(Node(cat, v.nodeSize, v.firstLeaf)) + 8 + 2 * |name|
  }

  /** What every lookup gives afterwards: with at least eight free bytes left in the leaf, what the old catalog with
      the file added gives; with fewer, every lookup fails. */
  ghost predicate Lookups(v: Volume, cat: seq<byte>, cat': seq<byte>, name: seq<byte>, n: nat, d: nat, gap: int)
    requires 0 < v.nodeSize
  {
    forall path: seq<byte> :: LookupAfter(v, cat, cat', name, n, d, gap, path)
  }

  ghost predicate LookupAfter(v: Volume, cat: seq<byte>, cat': seq<byte>, name: seq<byte>, n: nat, d: nat, gap: int,
                              path: seq<byte>)
    requires 0 < v.nodeSize
  {
    FindFileSpec(cat', v.nodeSize, v.firstLeaf, v.lastLeaf, path)
    == if gap < 8 && Parts(path) != [] then Failed(StructError)
       else After(cat, v.nodeSize, v.firstLeaf, v.lastLeaf, Parts(path), ROOT_ID, name, n, d)
  }

  lemma LookupsCreated(v: Volume, cat: seq<byte>, files: seq<FileLoc>, rec: seq<byte>, name: seq<byte>, id: nat,
                       fork: Fork)
    requires RecordFits(v, cat, files, rec) && 12 <= v.nodeSize && IsFileRecord(rec, name, id, fork)
    ensures Lookups(v, cat, Cat2(v, cat, files, rec), name, v.firstLeaf, NewData(v, cat, files, name),
                    Gap(Node(cat, v.nodeSize, v.firstLeaf), |rec|))
  {
    hide ScanFrom, Len, Node, NewCatalog, LeafShape, Gap, IsFileRecord, Be32, NewOff, After;
    TableRoom(Node(cat, v.nodeSize, v.firstLeaf), rec);
    var cat', d, gap := Cat2(v, cat, files, rec), NewData(v, cat, files, name),
        Gap(Node(cat, v.nodeSize, v.firstLeaf), |rec|);
    forall path: seq<byte> ensures LookupAfter(v, cat, cat', name, v.firstLeaf, d, gap, path) {
      PartsNonEmpty(path);
      var parts := Parts(path);
      if gap >= 8 {
        PathsCreated(v, cat, files, rec, name, id, fork, parts, ROOT_ID);
      } else if parts != [] {
        assert parts[0] in parts;
        ScanCreated(cat, v.nodeSize, v.firstLeaf, v.lastLeaf, rec, name, id, fork, ROOT_ID, parts[0]);
      } else {
        NoParts(v, cat, name, v.firstLeaf, d);
      }
    }
  }

  lemma NoParts(v: Volume, cat: seq<byte>, name: seq<byte>, n: nat, d: nat)
    requires 0 < v.nodeSize
    ensures After(cat, v.nodeSize, v.firstLeaf, v.lastLeaf, [], ROOT_ID, name, n, d) == Failed(RuntimeError)
  {
  }
}
