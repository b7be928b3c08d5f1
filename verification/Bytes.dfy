/** Byte strings, big- and little-endian fields, and in-place patches of a byte string. */
module Bytes {

  type byte = x: int | 0 <= x < 256

  datatype Option<+T> = None | Some(value: T)

  const TWO16 := 0x1_0000
  const TWO32 := 0x1_0000_0000
  const TWO64 := 0x1_0000_0000_0000_0000

  function Min(a: int, b: int): int {
    if a < b then a else b
  }

  function Be16(b: seq<byte>, o: nat): (v: nat)
    requires o + 2 <= |b|
    ensures v < TWO16
  {
    (b[o] as int) * 0x100 + b[o + 1]
  }

  function Be32(b: seq<byte>, o: nat): (v: nat)
    requires o + 4 <= |b|
    ensures v < TWO32
  {
    Be16(b, o) * TWO16 + Be16(b, o + 2)
  }

  function Be64(b: seq<byte>, o: nat): (v: nat)
    requires o + 8 <= |b|
    ensures v < TWO64
  {
    Be32(b, o) * TWO32 + Be32(b, o + 4)
  }

  function EncBe16(v: nat): (b: seq<byte>)
    requires v < TWO16
    ensures |b| == 2 && Be16(b, 0) == v
  {
    [v / 0x100, v % 0x100]
  }

  function EncBe32(v: nat): (b: seq<byte>)
    requires v < TWO32
    ensures |b| == 4 && Be32(b, 0) == v
  {
    EncBe16(v / TWO16) + EncBe16(v % TWO16)
  }

  function EncBe64(v: nat): (b: seq<byte>)
    requires v < TWO64
    ensures |b| == 8 && Be64(b, 0) == v
  {
    var hi, lo := EncBe32(v / TWO32), EncBe32(v % TWO32);
    var b := hi + lo;
    assert Be32(b, 0) == Be32(hi, 0) && Be32(b, 4) == Be32(lo, 0);
    b
  }

  function Le16(b: seq<byte>, o: nat): (v: nat)
    requires o + 2 <= |b|
    ensures v < TWO16
  {
    b[o] + (b[o + 1] as int) * 0x100
  }

  function Le32(b: seq<byte>, o: nat): (v: nat)
    requires o + 4 <= |b|
    ensures v < TWO32
  {
    Le16(b, o) + Le16(b, o + 2) * TWO16
  }

  function EncLe16(v: nat): (b: seq<byte>)
    requires v < TWO16
    ensures |b| == 2 && Le16(b, 0) == v
  {
    [v % 0x100, v / 0x100]
  }

  function EncLe32(v: nat): (b: seq<byte>)
    requires v < TWO32
    ensures |b| == 4 && Le32(b, 0) == v
  {
    EncLe16(v % TWO16) + EncLe16(v / TWO16)
  }

  function Zeros(n: nat): (b: seq<byte>)
    ensures |b| == n && forall i :: 0 <= i < n ==> b[i] == 0
  {
    seq(n, i => 0)
  }

  /** `b` with the bytes from `off` on replaced by `d`: what a write of `d` at `off` leaves behind. */
  function Patch(b: seq<byte>, off: nat, d: seq<byte>): (r: seq<byte>)
    requires off + |d| <= |b|
    ensures |r| == |b|
    ensures forall i {:trigger r[i]} :: 0 <= i < |b| ==> r[i] == if off <= i < off + |d| then d[i - off] else b[i]
    ensures r[off..off + |d|] == d
  {
    b[..off] + d + b[off + |d|..]
  }

  /** A C string: up to the first zero. */
  function CStr(s: seq<byte>): seq<byte> {
    if s == [] || s[0] == 0 then [] else [s[0]] + CStr(s[1..])
  }

  lemma NoPatch(b: seq<byte>, o: nat)
    requires o <= |b|
    ensures Patch(b, o, []) == b && Patch(b, o, Zeros(0)) == b
  {
  }

  lemma SubSlice(b: seq<byte>, o: nat, r: seq<byte>, at: nat, n: nat)
    requires o + |r| <= |b| && b[o..o + |r|] == r && at + n <= |r|
    ensures b[o + at..o + at + n] == r[at..at + n]
  {
    var x, y := b[o + at..o + at + n], r[at..at + n];
    forall i | 0 <= i < n ensures x[i] == y[i] {
      assert b[o..o + |r|][at + i] == r[at + i];
    }
  }

  lemma SliceOfPatch(b: seq<byte>, off: nat, d: seq<byte>, lo: nat, n: nat)
    requires off + |d| <= |b| && lo + n <= |b|
    ensures lo <= off && off + |d| <= lo + n ==> Patch(b, off, d)[lo..lo + n] == Patch(b[lo..lo + n], off - lo, d)
    ensures off + |d| <= lo || lo + n <= off ==> Patch(b, off, d)[lo..lo + n] == b[lo..lo + n]
  {
    var x := Patch(b, off, d)[lo..lo + n];
    forall i | 0 <= i < n
      ensures x[i] == if off <= lo + i < off + |d| then d[lo + i - off] else b[lo..lo + n][i]
    {
      assert x[i] == Patch(b, off, d)[lo + i];
    }
  }

  /** Big-endian fields depend only on their own bytes. */
  lemma SameFields(a: seq<byte>, b: seq<byte>, ao: nat, bo: nat, n: nat)
    requires ao + n <= |a| && bo + n <= |b|
    requires a[ao..ao + n] == b[bo..bo + n]
    ensures forall i {:trigger a[ao + i]} :: 0 <= i < n ==> a[ao + i] == b[bo + i]
    ensures n == 2 ==> Be16(a, ao) == Be16(b, bo)
    ensures n == 4 ==> Be32(a, ao) == Be32(b, bo)
    ensures n == 8 ==> Be64(a, ao) == Be64(b, bo)
  {
    forall i {:trigger a[ao + i]} | 0 <= i < n ensures a[ao + i] == b[bo + i] {
      assert a[ao..ao + n][i] == b[bo..bo + n][i];
    }
  }
}
