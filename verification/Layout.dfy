/**
  Packed structures: a layout lists the fields in order with their widths in bytes, and a packed structure
  is the concatenation of its field values. Decoders elsewhere read at fixed offsets; the lemmas here say
  which field stands at an offset.
  */
module Layout {
  import opened Bytes

  datatype Slot<T> = Slot(name: T, width: nat)

  /** A number in `w` bytes, most significant first. */
  function BeBytes(w: nat, v: nat): (b: seq<byte>)
    ensures |b| == w
  {
    if w == 0 then [] else BeBytes(w - 1, v / 256) + [v % 256]
  }

  /** A number in `w` bytes, least significant first. */
  function LeBytes(w: nat, v: nat): (b: seq<byte>)
    ensures |b| == w
  {
    if w == 0 then [] else [v % 256] + LeBytes(w - 1, v / 256)
  }

  /** Where slot `i` starts. */
  function Start<T>(layout: seq<Slot<T>>, i: nat): nat
    requires i <= |layout|
  {
    if i == 0 then 0 else Start(layout, i - 1) + layout[i - 1].width
  }

  function Number(w: nat, v: nat, big: bool): (b: seq<byte>)
    ensures |b| == w
  {
    if big then BeBytes(w, v) else LeBytes(w, v)
  }

  /** The first `n` fields of a structure in the given byte order. */
  ghost function Packed<T>(layout: seq<Slot<T>>, value: T -> nat, big: bool, n: nat): (b: seq<byte>)
    requires n <= |layout|
    ensures |b| == Start(layout, n)
  {
    if n == 0 then []
    else
      var f := layout[n - 1];
      Packed(layout, value, big, n - 1) + Number(f.width, value(f.name), big)
  }

  ghost function PackBe<T>(layout: seq<Slot<T>>, value: T -> nat): (b: seq<byte>)
    ensures |b| == Start(layout, |layout|)
  {
    Packed(layout, value, true, |layout|)
  }

  ghost function PackLe<T>(layout: seq<Slot<T>>, value: T -> nat): (b: seq<byte>)
    ensures |b| == Start(layout, |layout|)
  {
    Packed(layout, value, false, |layout|)
  }

  lemma {:induction false} StartMono<T>(layout: seq<Slot<T>>, i: nat, j: nat)
    requires i <= j <= |layout|
    ensures Start(layout, i) <= Start(layout, j)
  {
    if i < j {
      StartMono(layout, i, j - 1);
    }
  }

  lemma {:induction false} FieldBytes<T>(layout: seq<Slot<T>>, value: T -> nat, big: bool, n: nat, i: nat)
    requires i < n <= |layout|
    ensures Start(layout, i + 1) == Start(layout, i) + layout[i].width <= Start(layout, n)
    ensures Packed(layout, value, big, n)[Start(layout, i)..Start(layout, i + 1)]
         == Number(layout[i].width, value(layout[i].name), big)
  {
    hide Number, Start;
    StartMono(layout, i + 1, n);
    StartNext(layout, i);
    StartNext(layout, n - 1);
    var init, f := Packed(layout, value, big, n - 1), layout[n - 1];
    assert Packed(layout, value, big, n) == init + Number(f.width, value(f.name), big);
    if i + 1 < n {
      FieldBytes(layout, value, big, n - 1, i);
      InFront(init, Number(f.width, value(f.name), big), Start(layout, i), Start(layout, i + 1));
    } else {
      Behind(init, Number(f.width, value(f.name), big));
    }
  }

  lemma StartNext<T>(layout: seq<Slot<T>>, i: nat)
    requires i < |layout|
    ensures Start(layout, i + 1) == Start(layout, i) + layout[i].width
  {
  }

  lemma InFront(a: seq<byte>, b: seq<byte>, lo: nat, hi: nat)
    requires lo <= hi <= |a|
    ensures (a + b)[lo..hi] == a[lo..hi]
  {
  }

  lemma Behind(a: seq<byte>, b: seq<byte>)
    ensures (a + b)[|a|..|a| + |b|] == b
  {
  }

  // ---------- fields of two, four and eight bytes ----------

  lemma Two(v: nat)
    requires v < TWO16
    ensures BeBytes(2, v) == [v / 256, v % 256] && LeBytes(2, v) == [v % 256, v / 256]
  {
    assert BeBytes(0, v / 256 / 256) == [] && LeBytes(0, v / 256 / 256) == [];
    assert BeBytes(1, v / 256) == [v / 256] && LeBytes(1, v / 256) == [v / 256];
  }

  lemma Four(v: nat)
    requires v < TWO32
    ensures BeBytes(4, v) == BeBytes(2, v / TWO16) + BeBytes(2, v % TWO16)
    ensures LeBytes(4, v) == LeBytes(2, v % TWO16) + LeBytes(2, v / TWO16)
  {
    Two(v / TWO16);
    Two(v % TWO16);
    assert v / 256 / 256 == v / TWO16;
    assert v % TWO16 / 256 == v / 256 % 256;
    assert BeBytes(3, v / 256) == BeBytes(2, v / TWO16) + [v / 256 % 256];
    assert LeBytes(3, v / 256) == [v / 256 % 256] + LeBytes(2, v / TWO16);
  }

  lemma ReadTwo(b: seq<byte>, o: nat, v: nat)
    requires o + 2 <= |b| && v < TWO16
    ensures b[o..o + 2] == BeBytes(2, v) ==> Be16(b, o) == v
    ensures b[o..o + 2] == LeBytes(2, v) ==> Le16(b, o) == v
  {
    Two(v);
    assert b[o..o + 2] == [b[o], b[o + 1]];
  }

  lemma ReadFour(b: seq<byte>, o: nat, v: nat)
    requires o + 4 <= |b| && v < TWO32
    ensures b[o..o + 4] == BeBytes(4, v) ==> Be32(b, o) == v
    ensures b[o..o + 4] == LeBytes(4, v) ==> Le32(b, o) == v
  {
    Four(v);
    assert b[o..o + 4][..2] == b[o..o + 2] && b[o..o + 4][2..] == b[o + 2..o + 4];
    ReadTwo(b, o, v / TWO16);
    ReadTwo(b, o + 2, v % TWO16);
    ReadTwo(b, o, v % TWO16);
    ReadTwo(b, o + 2, v / TWO16);
  }

  // ---------- structures inside a buffer ----------

  /** The buffer holds the whole structure from `o` on. */
  ghost predicate Holds<T>(b: seq<byte>, o: nat, layout: seq<Slot<T>>, value: T -> nat, big: bool) {
    && o + Start(layout, |layout|) <= |b|
    && b[o..o + Start(layout, |layout|)] == Packed(layout, value, big, |layout|)
  }

  /** What is read where slot `i` starts is the value of that field. */
  lemma ReadSlot<T>(b: seq<byte>, o: nat, layout: seq<Slot<T>>, value: T -> nat, big: bool, i: nat)
    requires Holds(b, o, layout, value, big) && i < |layout|
    ensures var at, w, v := o + Start(layout, i), layout[i].width, value(layout[i].name);
            && at + w <= |b| && b[at..at + w] == Number(w, v, big)
            && (w == 1 && v < 256 ==> b[at] == v)
            && (w == 2 && v < TWO16 ==> (if big then Be16(b, at) else Le16(b, at)) == v)
            && (w == 4 && v < TWO32 ==> (if big then Be32(b, at) else Le32(b, at)) == v)
  {
    hide Packed, Start, BeBytes, LeBytes, Be16, Be32, Le16, Le32;
    var at, w, v := o + Start(layout, i), layout[i].width, value(layout[i].name);
    FieldBytes(layout, value, big, |layout|, i);
    SubSlice(b, o, Packed(layout, value, big, |layout|), Start(layout, i), w);
    if w == 1 && v < 256 {
      One(v);
      assert b[at..at + 1][0] == b[at];
    } else if w == 2 && v < TWO16 {
      ReadTwo(b, at, v);
    } else if w == 4 && v < TWO32 {
      ReadFour(b, at, v);
    }
  }

  lemma One(v: nat)
    requires v < 256
    ensures BeBytes(1, v) == [v] == LeBytes(1, v)
  {
    assert BeBytes(0, v / 256) == [] == LeBytes(0, v / 256);
  }
}
