/** The allocation bitmap of an HFS+ volume: one bit per block, most significant bit first. */
module HfsBitmap {
  import opened Bytes
  import opened HfsExtents

  // ---------- bits of a number, least significant first ----------

  predicate Bit(x: nat, k: nat) {
    if k == 0 then x % 2 == 1 else Bit(x / 2, k - 1)
  }

  function WithBit(x: nat, k: nat, on: bool): nat {
    if k == 0 then x / 2 * 2 + (if on then 1 else 0) else WithBit(x / 2, k - 1, on) * 2 + x % 2
  }

  lemma {:induction false} BitWithBit(x: nat, k: nat, on: bool, j: nat)
    ensures Bit(WithBit(x, k, on), j) == if j == k then on else Bit(x, j)
  {
    if k != 0 && j != 0 {
      BitWithBit(x / 2, k - 1, on, j - 1);
    }
  }

  function Pow2(n: nat): nat {
    if n == 0 then 1 else 2 * Pow2(n - 1)
  }

  lemma {:induction false} WithBitBound(x: nat, k: nat, on: bool, n: nat)
    requires k < n && x < Pow2(n)
    ensures WithBit(x, k, on) < Pow2(n)
  {
    if k != 0 {
      WithBitBound(x / 2, k - 1, on, n - 1);
    }
  }

  /** `x & (0x80 >> k) != 0`. */
  predicate BitOf(x: byte, k: nat)
    requires k < 8
  {
    Bit(x, 7 - k)
  }

  /** `x | (0x80 >> k)`, or `x & ~(0x80 >> k)`. */
  function SetBit(x: byte, k: nat, used: bool): (y: byte)
    requires k < 8
  {
    assert Pow2(8) == 256;
    WithBitBound(x, 7 - k, used, 8);
    WithBit(x, 7 - k, used)
  }

  // ---------- bits of the bitmap ----------

  predicate IsUsed(bitmap: seq<byte>, block: nat)
    requires block < 8 * |bitmap|
  {
    BitOf(bitmap[block / 8], block % 8)
  }

  /** The number with these binary digits, most significant first. */
  function Binary(digits: seq<bool>): nat {
    if digits == [] then 0 else 2 * Binary(digits[..|digits| - 1]) + if digits[|digits| - 1] then 1 else 0
  }

  lemma {:induction false} BinaryBit(digits: seq<bool>, k: nat)
    requires k < |digits|
    ensures Bit(Binary(digits), |digits| - 1 - k) == digits[k]
  {
    hide Bit;
    var n := |digits| - 1;
    LowBit(Binary(digits[..n]), digits[n], n - k);
    if k < n {
      BinaryBit(digits[..n], k);
    }
  }

  lemma LowBit(x: nat, low: bool, j: nat)
    ensures Bit(2 * x + if low then 1 else 0, j) == if j == 0 then low else Bit(x, j - 1)
  {
  }

  /** A bitmap byte by its value: its eight blocks are its binary digits, the first the most significant one. */
  lemma ByteBits(digits: seq<bool>, bitmap: seq<byte>, at: nat, k: nat)
    requires |digits| == 8 && at < |bitmap| && bitmap[at] == Binary(digits) && k < 8
    ensures IsUsed(bitmap, 8 * at + k) <==> digits[k]
  {
    BinaryBit(digits, k);
    assert (8 * at + k) / 8 == at && (8 * at + k) % 8 == k;
  }

  /** Over the byte 0x80 only the first block is used, so the first free block is the second. */
  method FirstFreeBehind() returns (r: Option<nat>)
    ensures r == Some(1)
  {
    var digits := [true, false, false, false, false, false, false, false];
    assert Binary(digits) == 0x80 by {
      EightDigits(digits);
    }
    ByteBits(digits, [0x80], 0, 0);
    ByteBits(digits, [0x80], 0, 1);
    var past;
    r, past := FindFreeRun([0x80], 8, 1);
    assert AllClear([0x80], 1, 1);
    assert !AllClear([0x80], 0, 1);
  }

  lemma EightDigits(d: seq<bool>)
    requires |d| == 8
    ensures Binary(d) == (if d[0] then 128 else 0) + (if d[1] then 64 else 0) + (if d[2] then 32 else 0)
                         + (if d[3] then 16 else 0) + (if d[4] then 8 else 0) + (if d[5] then 4 else 0)
                         + (if d[6] then 2 else 0) + if d[7] then 1 else 0
  {
    assert d[..7][..6] == d[..6] && d[..6][..5] == d[..5] && d[..5][..4] == d[..4] && d[..4][..3] == d[..3];
    assert d[..3][..2] == d[..2] && d[..2][..1] == d[..1] && d[..1][..0] == [];
    assert Binary(d[..1]) == if d[0] then 1 else 0;
    assert Binary(d[..2]) == 2 * Binary(d[..1]) + if d[1] then 1 else 0;
    assert Binary(d[..3]) == 2 * Binary(d[..2]) + if d[2] then 1 else 0;
    assert Binary(d[..4]) == 2 * Binary(d[..3]) + if d[3] then 1 else 0;
    assert Binary(d[..5]) == 2 * Binary(d[..4]) + if d[4] then 1 else 0;
    assert Binary(d[..6]) == 2 * Binary(d[..5]) + if d[5] then 1 else 0;
    assert Binary(d[..7]) == 2 * Binary(d[..6]) + if d[6] then 1 else 0;
  }

  /** Setting or clearing one block's bit leaves every other block's status alone. */
  function SetUsed(bitmap: seq<byte>, block: nat, used: bool): (r: seq<byte>)
    requires block < 8 * |bitmap|
    ensures |r| == |bitmap|
    ensures forall b: nat :: b < 8 * |bitmap| ==> IsUsed(r, b) == if b == block then used else IsUsed(bitmap, b)
  {
    var r := bitmap[block / 8 := SetBit(bitmap[block / 8], block % 8, used)];
    assert forall b: nat :: b < 8 * |bitmap| ==> IsUsed(r, b) == if b == block then used else IsUsed(bitmap, b) by {
      forall b: nat | b < 8 * |bitmap| ensures IsUsed(r, b) == if b == block then used else IsUsed(bitmap, b) {
        BitWithBit(bitmap[block / 8], 7 - block % 8, used, 7 - b % 8);
      }
    }
    r
  }

  ghost predicate AllClear(bitmap: seq<byte>, start: nat, n: nat)
    requires start + n <= 8 * |bitmap|
  {
    forall b :: start <= b < start + n ==> !IsUsed(bitmap, b)
  }

  /** First fit: the least start of `blocksNeeded` clear bits below `totalBlocks`. A request for no
      blocks is served like a request for one: it still needs a clear bit. `past` is the index error
      of a bitmap shorter than the volume, met when no run was found before its end. */
  method FindFreeRun(bitmap: seq<byte>, totalBlocks: nat, blocksNeeded: nat) returns (r: Option<nat>, past: bool)
    ensures var n, end := if blocksNeeded == 0 then 1 else blocksNeeded, Min(totalBlocks, 8 * |bitmap|);
            && (r.Some? ==> && r.value + n <= end && AllClear(bitmap, r.value, n)
                            && forall s: nat :: s < r.value ==> !AllClear(bitmap, s, n))
            && (r.None? ==> forall s: nat :: s + n <= end ==> !AllClear(bitmap, s, n))
            && past == (r.None? && totalBlocks > 8 * |bitmap|)
  {
    ghost var n := if blocksNeeded == 0 then 1 else blocksNeeded;
    var runStart: Option<nat>, runLen := None, 0;
    for block := 0 to totalBlocks
      invariant block <= 8 * |bitmap|
      invariant runStart.None? <==> runLen == 0
      invariant 0 <= runLen < n
      invariant runStart.Some? ==> runStart.value + runLen == block && AllClear(bitmap, runStart.value, runLen)
      invariant runLen < block ==> IsUsed(bitmap, block - runLen - 1)
      invariant forall s: nat :: s + n <= block ==> !AllClear(bitmap, s, n)
      invariant runLen <= block
    {
      if block == 8 * |bitmap| {
        return None, true;
      }
      if !IsUsed(bitmap, block) {
        if runStart.None? {
          runStart, runLen := Some(block), 1;
        } else {
          runLen := runLen + 1;
        }
        if runLen >= blocksNeeded {
          forall s: nat | s < runStart.value ensures !AllClear(bitmap, s, n) {
            assert s + n <= block ==> !AllClear(bitmap, s, n);
            assert s <= block - runLen < s + n || s + n <= block;
          }
          return Some(runStart.value), false;
        }
      } else {
        runStart, runLen := None, 0;
      }
      forall s: nat | s + n <= block + 1 ensures !AllClear(bitmap, s, n) {
        if s + n == block + 1 {
          assert IsUsed(bitmap, block - runLen);
        }
      }
    }
    return None, false;
  }

  // ---------- counting ----------

  function FreeSet(bitmap: seq<byte>, total: nat): set<nat>
    requires total <= 8 * |bitmap|
  {
    set b: nat | b < total && !IsUsed(bitmap, b)
  }

  function SetOf(blocks: seq<nat>): set<nat> {
    set b | b in blocks
  }

  lemma {:induction false} SetOfSize(blocks: seq<nat>)
    requires NoDup(blocks)
    ensures |SetOf(blocks)| == |blocks|
  {
    if blocks != [] {
      var rest := blocks[..|blocks| - 1];
      SetOfSize(rest);
      assert SetOf(blocks) == SetOf(rest) + {blocks[|blocks| - 1]};
    }
  }

  /** The loops that mark the new blocks and release the old ones. */
  method MarkBlocks(bitmap: seq<byte>, extents: seq<Extent>, used: bool) returns (r: seq<byte>)
    requires forall b :: b in Blocks(extents) ==> b < 8 * |bitmap|
    ensures |r| == |bitmap|
    ensures forall b: nat :: b < 8 * |bitmap| ==>
              IsUsed(r, b) == if b in Blocks(extents) then used else IsUsed(bitmap, b)
  {
    r := bitmap;
    assert extents[..|extents|] == extents;
    for i := 0 to |extents|
      invariant |r| == |bitmap|
      invariant forall b: nat :: b < 8 * |bitmap| ==>
                  IsUsed(r, b) == if b in Blocks(extents[..i]) then used else IsUsed(bitmap, b)
    {
      var e := extents[i];
      BlocksAppend(extents[..i], [e]);
      assert extents[..i] + [e] == extents[..i + 1];
      assert Blocks([e]) == Run(e.start, e.count);
      BlocksAppend(extents[..i + 1], extents[i + 1..]);
      assert extents[..i + 1] + extents[i + 1..] == extents;
      ghost var before := r;
      for b := e.start to e.start + e.count
        invariant |r| == |bitmap|
        invariant forall c: nat :: c < 8 * |bitmap| ==>
                    IsUsed(r, c) == if e.start <= c < b then used else IsUsed(before, c)
      {
        assert Run(e.start, e.count)[b - e.start] == b;
        assert b in Blocks(extents);
        r := SetUsed(r, b, used);
      }
      forall b: nat | b < 8 * |bitmap|
        ensures IsUsed(r, b) == if b in Blocks(extents[..i + 1]) then used else IsUsed(bitmap, b)
      {
        RunMember(e.start, e.count, b);
      }
    }
  }

  lemma RunMember(start: nat, count: nat, b: nat)
    ensures b in Run(start, count) <==> start <= b < start + count
  {
    if start <= b < start + count {
      assert Run(start, count)[b - start] == b;
    }
  }

  /** Conservation: taking `taken` out of the free blocks and giving `released` back moves the
      number of clear bits by exactly their lengths. */
  lemma MoveConserves(bitmap: seq<byte>, bitmap': seq<byte>, total: nat, taken: seq<nat>, released: seq<nat>)
    requires |bitmap| == |bitmap'| && total <= 8 * |bitmap|
    requires NoDup(taken) && NoDup(released)
    requires forall b :: b in taken ==> b < total && !IsUsed(bitmap, b)
    requires forall b :: b in released ==> b < total && IsUsed(bitmap, b)
    requires forall b: nat :: b < total ==>
               IsUsed(bitmap', b) == if b in released then false else if b in taken then true else IsUsed(bitmap, b)
    ensures |FreeSet(bitmap', total)| == |FreeSet(bitmap, total)| + |released| - |taken|
    ensures |taken| <= |FreeSet(bitmap, total)| <= total
    ensures |FreeSet(bitmap', total)| <= total
  {
    var free, free' := FreeSet(bitmap, total), FreeSet(bitmap', total);
    SetOfSize(taken);
    SetOfSize(released);
    assert SetOf(taken) <= free;
    assert free' == (free - SetOf(taken)) + SetOf(released);
    assert |free - SetOf(taken)| == |free| - |SetOf(taken)|;
    assert (free - SetOf(taken)) !! SetOf(released);
    BoundedSet(free, total);
    BoundedSet(free', total);
    SubsetSize(SetOf(taken), free);
  }

  lemma SubsetSize(a: set<nat>, b: set<nat>)
    requires a <= b
    ensures |a| <= |b|
  {
    assert b == a + (b - a);
  }

  lemma {:induction false} BoundedSet(s: set<nat>, n: nat)
    requires forall x :: x in s ==> x < n
    ensures |s| <= n
  {
    if n == 0 {
      assert s == {};
    } else {
      BoundedSet(s - {n - 1}, n - 1);
    }
  }
}
