/**
  Cutting a byte offset into a block number and an offset inside the block.

  The three functions are the usual quotient, remainder and product (lemma `Arithmetic`). They
  are written as recursions so that proofs about blocks stay in linear arithmetic.
  */
module Blocking {

  /** The length in bytes of `n` blocks. */
  function Len(n: nat, bs: nat): nat {
    if n == 0 then 0 else Len(n - 1, bs) + bs
  }

  lemma LenNext(n: nat, bs: nat)
    ensures Len(n + 1, bs) == Len(n, bs) + bs
  {
  }

  /** The block a byte offset falls in. */
  function BlockOf(i: nat, bs: nat): nat
    requires 0 < bs
  {
    if i < bs then 0 else 1 + BlockOf(i - bs, bs)
  }

  /** The offset inside that block. */
  function Within(i: nat, bs: nat): (r: nat)
    requires 0 < bs
    ensures r < bs
  {
    if i < bs then i else Within(i - bs, bs)
  }

  lemma {:induction false} WithinLe(k: nat, d: nat)
    requires 0 < d
    ensures Within(k, d) <= k
  {
    if k >= d {
      WithinLe(k - d, d);
    }
  }

  lemma {:induction false} LenMul(n: nat, bs: nat)
    ensures Len(n, bs) == n * bs
  {
    if n != 0 {
      LenMul(n - 1, bs);
      assert n * bs == (n - 1) * bs + bs;
    }
  }

  lemma {:induction false} Cut(i: nat, bs: nat)
    requires 0 < bs
    ensures i == Len(BlockOf(i, bs), bs) + Within(i, bs)
  {
    if i >= bs {
      Cut(i - bs, bs);
    }
  }

  lemma {:induction false} LenMono(a: nat, b: nat, bs: nat)
    requires a <= b
    ensures Len(a, bs) <= Len(b, bs)
  {
    if a < b {
      LenMono(a, b - 1, bs);
    }
  }

  lemma {:induction false} Join(q: nat, r: nat, bs: nat)
    requires r < bs
    ensures BlockOf(Len(q, bs) + r, bs) == q && Within(Len(q, bs) + r, bs) == r
  {
    if q != 0 {
      Join(q - 1, r, bs);
    }
  }

  lemma Inside(i: nat, n: nat, bs: nat)
    requires 0 < bs
    ensures BlockOf(i, bs) < n <==> i < Len(n, bs)
  {
    Cut(i, bs);
    var q := BlockOf(i, bs);
    if q < n {
      LenMono(q + 1, n, bs);
    } else {
      LenMono(n, q, bs);
    }
  }

  /** The three functions are `/`, `%` and `*`. */
  lemma Arithmetic(i: nat, bs: nat)
    requires 0 < bs
    ensures BlockOf(i, bs) == i / bs && Within(i, bs) == i % bs && Len(i, bs) == i * bs
    ensures Len(i / bs, bs) == i / bs * bs
  {
    Cut(i, bs);
    LenMul(i, bs);
    LenMul(BlockOf(i, bs), bs);
    QuotientUnique(i, BlockOf(i, bs), Within(i, bs), bs);
  }

  lemma QuotientUnique(x: nat, q: nat, r: nat, bs: nat)
    requires r < bs && x == q * bs + r
    ensures x / bs == q && x % bs == r
  {
    var d := x / bs;
    if d < q {
      MulLt(d, q, bs);
    } else if q < d {
      MulLt(q, d, bs);
    }
  }

  lemma MulLt(a: nat, b: nat, k: nat)
    requires a < b
    ensures a * k + k <= b * k
  {
    MulLe(a + 1, b, k);
    assert (a + 1) * k == a * k + k;
  }

  lemma MulLe(a: nat, b: nat, k: nat)
    requires a <= b
    ensures a * k <= b * k
  {
  }

  function CeilDiv(value: nat, divisor: nat): nat
    requires 0 < divisor
  {
    (value + divisor - 1) / divisor
  }

  /** The least number of blocks that hold `value` bytes. */
  lemma CeilDivBlocks(value: nat, bs: nat, n: nat)
    requires 0 < bs
    ensures value <= Len(n, bs) <==> CeilDiv(value, bs) <= n
  {
    hide Len, BlockOf, Within;
    Arithmetic(value + bs - 1, bs);
    Inside(value + bs - 1, n + 1, bs);
    LenNext(n, bs);
  }

  lemma RequiredBlocks(n: nat, bs: nat)
    requires 0 < bs
    ensures n <= Len(CeilDiv(n, bs), bs) && (0 < n ==> 0 < CeilDiv(n, bs))
  {
    CeilDivBlocks(n, bs, CeilDiv(n, bs));
    CeilDivBlocks(n, bs, 0);
  }

  lemma PaddingSmall(size: nat, bs: nat)
    requires 0 < bs
    ensures Len(CeilDiv(size, bs), bs) - size < bs
  {
    hide CeilDiv;
    var n := CeilDiv(size, bs);
    if n != 0 {
      CeilDivBlocks(size, bs, n - 1);
    }
  }
}
