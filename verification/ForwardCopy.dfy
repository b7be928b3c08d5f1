/**
  A copy that moves forwards, byte by byte, inside one memory: it may run into bytes it has already written.
  */
module ForwardCopy {
  import opened Bytes
  import opened Blocking

  /** `n` bytes copied forwards, one by one, in one memory. */
  function Copied(m: seq<byte>, dst: nat, src: nat, n: nat): (r: seq<byte>)
    requires dst + n <= |m| && src + n <= |m|
    ensures |r| == |m|
  {
    if n == 0 then m
    else
      var p := Copied(m, dst, src, n - 1);
      p[dst + n - 1 := p[src + n - 1]]
  }

  /** The destination does not start inside the source past its first byte. */
  predicate CopySafe(dst: nat, src: nat, n: nat) {
    dst <= src || src + n <= dst
  }

  /** A safe copy moves the original bytes. */
  lemma {:induction false} CopyRight(m: seq<byte>, dst: nat, src: nat, n: nat, q: nat)
    requires dst + n <= |m| && src + n <= |m| && q < |m| && CopySafe(dst, src, n)
    ensures Copied(m, dst, src, n)[q] == if dst <= q < dst + n then m[src + q - dst] else m[q]
  {
    if n != 0 {
      CopyRight(m, dst, src, n - 1, q);
      CopyRight(m, dst, src, n - 1, src + n - 1);
    }
  }

  /** An unsafe copy repeats the first `dst - src` bytes of the source instead. */
  lemma {:induction false} CopyRepeats(m: seq<byte>, dst: nat, src: nat, n: nat, q: nat)
    requires dst + n <= |m| && src + n <= |m| && q < |m| && src < dst
    ensures Copied(m, dst, src, n)[q] == if dst <= q < dst + n then m[src + Within(q - dst, dst - src)] else m[q]
  {
    if n != 0 {
      CopyRepeats(m, dst, src, n - 1, q);
      CopyRepeats(m, dst, src, n - 1, src + n - 1);
    }
  }

  /** Where the byte that ends up at `q` comes from. */
  function Source(dst: nat, src: nat, q: nat): (i: nat)
    requires dst <= q
    ensures i <= src + q - dst
  {
    if dst <= src then src + q - dst
    else
      WithinLe(q - dst, dst - src);
      src + Within(q - dst, dst - src)
  }

  lemma CopySource(m: seq<byte>, dst: nat, src: nat, n: nat, q: nat)
    requires dst + n <= |m| && src + n <= |m| && q < |m|
    ensures Copied(m, dst, src, n)[q] == if dst <= q < dst + n then m[Source(dst, src, q)] else m[q]
  {
    hide Within, Copied;
    if dst <= src {
      CopyRight(m, dst, src, n, q);
    } else {
      CopyRepeats(m, dst, src, n, q);
    }
  }

  predicate Delivered(m: seq<byte>, r: seq<byte>, dst: nat, src: nat, k: nat)
    requires dst + k < |r| && src + k < |m|
  {
    r[dst + k] == m[src + k]
  }

  /** The destination ends up with the original bytes of the source. */
  ghost predicate AllDelivered(m: seq<byte>, dst: nat, src: nat, n: nat)
    requires dst + n <= |m| && src + n <= |m|
  {
    var r := Copied(m, dst, src, n);
    forall k :: 0 <= k < n ==> Delivered(m, r, dst, src, k)
  }

  ghost predicate AllRepeat(m: seq<byte>, dst: nat, src: nat, n: nat)
    requires src < dst && src + n <= |m|
  {
    forall k :: 0 <= k < n ==> RepeatsAt(m, dst, src, n, k)
  }

  /** Byte `k` of the source equals the byte an unsafe copy would put in its place. */
  ghost predicate RepeatsAt(m: seq<byte>, dst: nat, src: nat, n: nat, k: nat)
    requires src < dst && src + n <= |m| && k < n
  {
    WithinLe(k, dst - src);
    m[src + Within(k, dst - src)] == m[src + k]
  }

  /** The copy delivers the original source exactly when it is safe or the source already repeats. */
  lemma CopyExact(m: seq<byte>, dst: nat, src: nat, n: nat)
    requires dst + n <= |m| && src + n <= |m|
    ensures AllDelivered(m, dst, src, n) <==> CopySafe(dst, src, n) || AllRepeat(m, dst, src, n)
  {
    hide Within;
    var r := Copied(m, dst, src, n);
    if CopySafe(dst, src, n) {
      forall k | 0 <= k < n ensures Delivered(m, r, dst, src, k) {
        CopyRight(m, dst, src, n, dst + k);
      }
    } else {
      if AllRepeat(m, dst, src, n) {
        forall k | 0 <= k < n ensures Delivered(m, r, dst, src, k) {
          assert RepeatsAt(m, dst, src, n, k);
          CopyRepeats(m, dst, src, n, dst + k);
        }
      }
      if AllDelivered(m, dst, src, n) {
        forall k | 0 <= k < n ensures RepeatsAt(m, dst, src, n, k) {
          assert Delivered(m, r, dst, src, k);
          CopyRepeats(m, dst, src, n, dst + k);
        }
      }
    }
  }

  method CopyForward(mem: array<byte>, dst: nat, src: nat, n: nat)
    requires dst + n <= mem.Length && src + n <= mem.Length
    modifies mem
    ensures mem[..] == Copied(old(mem[..]), dst, src, n)
  {
    ghost var m := mem[..];
    for k := 0 to n
      invariant mem[..] == Copied(m, dst, src, k)
    {
      mem[dst + k] := mem[src + k];
    }
  }
}
