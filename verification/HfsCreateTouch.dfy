/** What a creation does to the volume header, the bitmap and the rest of the image. */
module HfsCreateTouch {
  import opened Bytes
  import opened Blocking
  import opened HfsBitmap
  import opened HfsCatalog
  import opened HfsCreate
  import opened HfsExtents
  import opened HfsVolume
  import opened HfsReplace
  import opened HfsCreateFile

  // ---------- the volume header ----------

  /** The catalog id the next new file gets. */
  function FileId(h: seq<byte>): nat
    requires |h| == HDR_LEN
  {
    if Be32(h, NEXT_ID_OFF) < 20 then 20 else Be32(h, NEXT_ID_OFF)
  }

  predicate CountersFit(h: seq<byte>)
    requires |h| == HDR_LEN
  {
    Be32(h, FILE_COUNT_OFF) + 1 < TWO32 && FileId(h) + 1 < TWO32
  }

  predicate InCounters(i: nat) {
    || FREE_BLOCKS_OFF <= i < FREE_BLOCKS_OFF + 4
    || FILE_COUNT_OFF <= i < FILE_COUNT_OFF + 4
    || NEXT_ID_OFF <= i < NEXT_ID_OFF + 4
  }

  predicate SameBesideCounters(h: seq<byte>, h': seq<byte>) {
    |h| == |h'| == HDR_LEN && forall i :: 0 <= i < HDR_LEN && !InCounters(i) ==> h'[i] == h[i]
  }

  /** The free count is the given one, the other two counters and every other byte are as they were. */
  predicate FreeCounted(h: seq<byte>, h': seq<byte>, free: nat) {
    && SameBesideCounters(h, h') && Be32(h', FREE_BLOCKS_OFF) == free
    && Be32(h', FILE_COUNT_OFF) == Be32(h, FILE_COUNT_OFF) && Be32(h', NEXT_ID_OFF) == Be32(h, NEXT_ID_OFF)
  }

  /** One more file, the id given out and the next one behind it; every other byte is as it was. */
  predicate FileCounted(h: seq<byte>, h': seq<byte>, free: nat, id: nat) {
    && SameBesideCounters(h, h') && Be32(h', FREE_BLOCKS_OFF) == free && id == FileId(h)
    && Be32(h', FILE_COUNT_OFF) == Be32(h, FILE_COUNT_OFF) + 1 && Be32(h', NEXT_ID_OFF) == id + 1
  }

  /** The id after the next one is the one behind it: no id is given out twice. */
  lemma NextId(h: seq<byte>, h': seq<byte>, free: nat, id: nat)
    requires FileCounted(h, h', free, id)
    ensures FileId(h') == id + 1
  {
    hide Be32;
  }

  /** Headers of creations in a row: the ids count up by one, and so does the file count. */
  lemma {:induction false} IdsCountUp(hs: seq<seq<byte>>, frees: seq<nat>, ids: seq<nat>, j: nat)
    requires |hs| == |ids| + 1 && |frees| == |ids| && j < |ids|
    requires forall i :: 0 <= i < |ids| ==> FileCounted(hs[i], hs[i + 1], frees[i], ids[i])
    ensures |hs[0]| == HDR_LEN == |hs[j + 1]| && ids[j] == FileId(hs[0]) + j
    ensures Be32(hs[j + 1], FILE_COUNT_OFF) == Be32(hs[0], FILE_COUNT_OFF) + j + 1
  {
    hide Be32;
    assert FileCounted(hs[j], hs[j + 1], frees[j], ids[j]);
    if j != 0 {
      IdsCountUp(hs, frees, ids, j - 1);
      assert FileCounted(hs[j - 1], hs[j - 1 + 1], frees[j - 1], ids[j - 1]);
      NextId(hs[j - 1], hs[j], frees[j - 1], ids[j - 1]);
    }
  }

  lemma FreeStored(h: seq<byte>, free: nat)
    requires |h| == HDR_LEN && free < TWO32
    ensures FreeCounted(h, Patch(h, FREE_BLOCKS_OFF, EncBe32(free)), free)
  {
    hide Be32, EncBe32;
    FieldIn(h, FREE_BLOCKS_OFF, EncBe32(free));
    FieldsOutside(h, FREE_BLOCKS_OFF, EncBe32(free), FILE_COUNT_OFF);
    FieldsOutside(h, FREE_BLOCKS_OFF, EncBe32(free), NEXT_ID_OFF);
  }

  lemma CountersStored(h: seq<byte>, h': seq<byte>, free: nat)
    requires FreeCounted(h, h', free) && CountersFit(h)
    ensures FileCounted(h, Patch(Patch(h', FILE_COUNT_OFF, EncBe32(Be32(h, FILE_COUNT_OFF) + 1)), NEXT_ID_OFF,
                                 EncBe32(FileId(h) + 1)), free, FileId(h))
  {
    hide Be32, EncBe32;
    var c, n := EncBe32(Be32(h, FILE_COUNT_OFF) + 1), EncBe32(FileId(h) + 1);
    var a := Patch(h', FILE_COUNT_OFF, c);
    FieldIn(h', FILE_COUNT_OFF, c);
    FieldIn(a, NEXT_ID_OFF, n);
    FieldsOutside(a, NEXT_ID_OFF, n, FILE_COUNT_OFF);
    FieldsOutside(h', FILE_COUNT_OFF, c, FREE_BLOCKS_OFF);
    FieldsOutside(a, NEXT_ID_OFF, n, FREE_BLOCKS_OFF);
  }

  // ---------- the bitmap and the rest of the image ----------

  /** The blocks a creation may write. */
  function Touchable(v: Volume, nb: seq<nat>): seq<nat>
    requires 0 < v.blockSize
  {
    [HdrBlock(v)] + AllocBlocks(v) + CatBlocks(v) + nb
  }

  /** The run is marked used and no other block, and nothing outside the system areas and the run is written. */
  ghost predicate Touched(v: Volume, img: seq<byte>, img': seq<byte>, nb: seq<nat>)
    requires Geometry(v, img) && Forks(v)
  {
    && Geometry(v, img') && SameOutside(v.blockSize, img, img', Touchable(v, nb))
    && Remarked(Bitmap(v, img), Bitmap(v, img'), nb, [])
  }

  lemma OutsideMore(bs: nat, a: seq<byte>, b: seq<byte>, x: seq<nat>, y: seq<nat>)
    requires 0 < bs && SameOutside(bs, a, b, x) && forall i :: i in x ==> i in y
    ensures SameOutside(bs, a, b, y)
  {
    hide BlockOf;
  }

  lemma TouchedBitmap(v: Volume, free: nat, img: seq<byte>, files: seq<FileLoc>, free': nat, bitmap': seq<byte>,
                      nb: seq<nat>)
    requires WellFormed(v, free, img, files) && free' < TWO32 && |bitmap'| == v.alloc.size
    requires Remarked(Bitmap(v, img), bitmap', nb, [])
    ensures Touched(v, img, BitmapWritten(v, img, free', bitmap'), nb)
    ensures FreeCounted(Header(img), Header(BitmapWritten(v, img, free', bitmap')), free')
  {
    hide NoDup, HeaderOk, Header, Locs, HitsListed, Ownership, FreeSet, View, BitmapWritten, Patch, Be32, EncBe32,
         SameOutside, Remarked, FreeCounted, BlockOf, Blocks;
    SystemOwners(v, free, img, files);
    BitmapEffect(v, img, free', bitmap');
    OutsideMore(v.blockSize, img, BitmapWritten(v, img, free', bitmap'), [HdrBlock(v)] + AllocBlocks(v),
                Touchable(v, nb));
    FreeStored(Header(img), free');
  }

  /** One more write inside those areas that leaves the bitmap alone. */
  lemma TouchedMore(v: Volume, img: seq<byte>, mid: seq<byte>, img': seq<byte>, nb: seq<nat>, x: seq<nat>)
    requires Geometry(v, img) && Forks(v) && Touched(v, img, mid, nb)
    requires SameOutside(v.blockSize, mid, img', x) && forall i :: i in x ==> i in Touchable(v, nb)
    requires Geometry(v, img') && Bitmap(v, img') == Bitmap(v, mid)
    ensures Touched(v, img, img', nb)
  {
    hide SameOutside, Remarked, View, BlockOf, Blocks, Len;
    OutsideTwice(v.blockSize, img, mid, img', Touchable(v, nb), x);
    OutsideMore(v.blockSize, img, img', Touchable(v, nb) + x, Touchable(v, nb));
  }

  lemma TouchedCatalog(v: Volume, free: nat, img: seq<byte>, mid: seq<byte>, img': seq<byte>, files: seq<FileLoc>,
                       nb: seq<nat>)
    requires Geometry(v, img) && WellFormed(v, free, mid, files) && Touched(v, img, mid, nb)
    requires SameOutside(v.blockSize, mid, img', CatBlocks(v))
    ensures Touched(v, img, img', nb) && Header(img') == Header(mid)
  {
    hide SameOutside, View, BlockOf, Blocks, Len, NoDup, HeaderOk, Header, Locs, HitsListed, Ownership, FreeSet,
         Touched;
    SystemOwners(v, free, mid, files);
    OutsideHeader(v, mid, img', CatBlocks(v));
    OutsideView(v, mid, img', CatBlocks(v), AllocBlocks(v));
    TouchedMore(v, img, mid, img', nb, CatBlocks(v));
  }
}
