/**
  The kernel's own words inside the memory its copy routines write to: six variables and the
  twenty words of the trap frame. A store through a user pointer can hit them.
  */
module KernelWords {
  import opened Bytes
  import opened Machine
  import opened UserMemory

  // Indices of the variables; the frame starts at word `FRAME`.
  const NEXT := 0
  const OPEN := 1
  const OFFSET := 2
  const FILE := 3
  const DIR_OPEN := 4
  const DIR_OFFSET := 5
  const FRAME := 6
  const WORDS := 26

  /** Where the linker and the trap entry put them. */
  datatype Layout = Layout(vars: seq<Word>, frame: Word)

  function At(l: Layout, k: nat): int
    requires |l.vars| == FRAME && k < WORDS
  {
    if k < FRAME then l.vars[k] else l.frame + 4 * (k - FRAME)
  }

  /** Distinct words in memory, outside the user window. */
  ghost predicate LayoutOk(l: Layout) {
    && |l.vars| == FRAME
    && (forall k :: 0 <= k < WORDS ==> At(l, k) + 4 <= TWO32 && (At(l, k) + 4 <= USER_BASE || USER_END <= At(l, k)))
    && (forall j, k :: 0 <= j < WORDS && 0 <= k < WORDS && j != k ==>
        At(l, j) + 4 <= At(l, k) || At(l, k) + 4 <= At(l, j))
  }

  ghost predicate InWord(l: Layout, k: nat, p: int)
    requires LayoutOk(l) && k < WORDS
  {
    At(l, k) <= p < At(l, k) + 4
  }

  /** A byte of the kernel's own. */
  ghost predicate InKernel(l: Layout, p: int)
    requires LayoutOk(l)
  {
    exists k :: 0 <= k < WORDS && InWord(l, k, p)
  }

  function Words(l: Layout, mem: seq<byte>): (w: seq<Word>)
    requires |mem| == TWO32 && LayoutOk(l)
    ensures |w| == WORDS && forall k :: 0 <= k < WORDS ==> w[k] == WordAt(l, mem, k)
  {
    seq(WORDS, k requires 0 <= k < WORDS => WordAt(l, mem, k))
  }

  function WordAt(l: Layout, mem: seq<byte>, k: nat): Word
    requires |mem| == TWO32 && LayoutOk(l) && k < WORDS
  {
    Le32(mem, At(l, k))
  }

  function SetWord(l: Layout, mem: seq<byte>, k: nat, v: Word): (r: seq<byte>)
    requires |mem| == TWO32 && LayoutOk(l) && k < WORDS
    ensures |r| == TWO32
  {
    Patch(mem, At(l, k), EncLe32(v))
  }

  /** The two memories agree on everything that is not the kernel's own. */
  ghost predicate UserEq(l: Layout, a: seq<byte>, b: seq<byte>)
    requires |a| == |b| == TWO32 && LayoutOk(l)
  {
    forall p :: 0 <= p < TWO32 && !InKernel(l, p) ==> a[p] == b[p]
  }

  /** A store of `n` bytes at `a` reaches none of the kernel's own bytes. */
  ghost predicate Misses(l: Layout, a: Word, n: nat)
    requires LayoutOk(l)
  {
    forall p: Word :: InKernel(l, p) ==> Off(p, a) >= n
  }

  // ---------- what stores do to the words ----------

  lemma Le32Exact(a: seq<byte>, b: seq<byte>, o: nat)
    requires o + 4 <= |a| && o + 4 <= |b|
    ensures Le32(a, o) == Le32(b, o) <==>
              a[o] == b[o] && a[o + 1] == b[o + 1] && a[o + 2] == b[o + 2] && a[o + 3] == b[o + 3]
  {
    Le16Exact(a, b, o);
    Le16Exact(a, b, o + 2);
  }

  lemma Le16Exact(a: seq<byte>, b: seq<byte>, o: nat)
    requires o + 2 <= |a| && o + 2 <= |b|
    ensures Le16(a, o) == Le16(b, o) <==> a[o] == b[o] && a[o + 1] == b[o + 1]
  {
  }

  /** The kernel's words are unchanged exactly when its bytes are. */
  lemma WordsExact(l: Layout, a: seq<byte>, b: seq<byte>)
    requires |a| == |b| == TWO32 && LayoutOk(l)
    ensures Words(l, a) == Words(l, b) <==> forall p :: 0 <= p < TWO32 && InKernel(l, p) ==> a[p] == b[p]
  {
    hide Le32;
    if forall p :: 0 <= p < TWO32 && InKernel(l, p) ==> a[p] == b[p] {
      forall k | 0 <= k < WORDS ensures WordAt(l, a, k) == WordAt(l, b, k) {
        var o := At(l, k);
        assert InWord(l, k, o) && InWord(l, k, o + 1) && InWord(l, k, o + 2) && InWord(l, k, o + 3);
        Le32Exact(a, b, o);
      }
    }
    if Words(l, a) == Words(l, b) {
      forall p | 0 <= p < TWO32 && InKernel(l, p) ensures a[p] == b[p] {
        var k :| 0 <= k < WORDS && InWord(l, k, p);
        assert WordAt(l, a, k) == Words(l, a)[k] == Words(l, b)[k];
        Le32Exact(a, b, At(l, k));
      }
    }
  }

  /** The same with one word left out. */
  lemma WordsExactBut(l: Layout, a: seq<byte>, b: seq<byte>, j: nat)
    requires |a| == |b| == TWO32 && LayoutOk(l) && j < WORDS
    ensures (forall k :: 0 <= k < WORDS && k != j ==> Words(l, a)[k] == Words(l, b)[k])
       <==> forall p :: 0 <= p < TWO32 && InKernel(l, p) && !InWord(l, j, p) ==> a[p] == b[p]
  {
    hide Le32;
    if forall p :: 0 <= p < TWO32 && InKernel(l, p) && !InWord(l, j, p) ==> a[p] == b[p] {
      forall k | 0 <= k < WORDS && k != j ensures WordAt(l, a, k) == WordAt(l, b, k) {
        var o := At(l, k);
        assert InWord(l, k, o) && InWord(l, k, o + 1) && InWord(l, k, o + 2) && InWord(l, k, o + 3);
        Le32Exact(a, b, o);
      }
    }
    if forall k :: 0 <= k < WORDS && k != j ==> Words(l, a)[k] == Words(l, b)[k] {
      forall p | 0 <= p < TWO32 && InKernel(l, p) && !InWord(l, j, p) ensures a[p] == b[p] {
        var k :| 0 <= k < WORDS && InWord(l, k, p);
        assert WordAt(l, a, k) == Words(l, a)[k] == Words(l, b)[k];
        Le32Exact(a, b, At(l, k));
      }
    }
  }

  /** A store keeps the kernel's words exactly when each byte it puts on one is the byte that is there. */
  lemma PutExact(l: Layout, mem: seq<byte>, a: Word, data: seq<byte>)
    requires |mem| == TWO32 && LayoutOk(l) && |data| <= TWO32
    ensures Words(l, Put(mem, a, data)) == Words(l, mem)
       <==> forall p: Word :: InKernel(l, p) && Off(p, a) < |data| ==> data[Off(p, a)] == mem[p]
  {
    hide Words, InKernel;
    var m := Put(mem, a, data);
    WordsExact(l, m, mem);
    if Words(l, m) == Words(l, mem) {
      forall p: Word | InKernel(l, p) && Off(p, a) < |data| ensures data[Off(p, a)] == mem[p] {
        assert m[p] == mem[p];
      }
    }
  }

  lemma PutMisses(l: Layout, mem: seq<byte>, a: Word, data: seq<byte>)
    requires |mem| == TWO32 && LayoutOk(l) && |data| <= TWO32 && Misses(l, a, |data|)
    ensures Words(l, Put(mem, a, data)) == Words(l, mem)
  {
    hide Words, InKernel;
    PutExact(l, mem, a, data);
  }

  /** A range is harmless, whatever is stored there, exactly when it misses the kernel's words. */
  lemma MissesExact(l: Layout, mem: seq<byte>, a: Word, n: nat)
    requires |mem| == TWO32 && LayoutOk(l) && n <= TWO32
    ensures Misses(l, a, n) <==> forall d: seq<byte> :: |d| == n ==> Words(l, Put(mem, a, d)) == Words(l, mem)
  {
    hide Words, InKernel;
    if Misses(l, a, n) {
      forall d: seq<byte> | |d| == n ensures Words(l, Put(mem, a, d)) == Words(l, mem) {
        PutMisses(l, mem, a, d);
      }
    } else {
      var p: Word :| InKernel(l, p) && Off(p, a) < n;
      var c: byte := if mem[p] == 0 then 1 else 0;
      var d := seq(n, i => c);
      PutExact(l, mem, a, d);
      assert d[Off(p, a)] != mem[p];
    }
  }

  /** Storing one of the words changes it and nothing else. */
  lemma SetWordWords(l: Layout, mem: seq<byte>, k: nat, v: Word)
    requires |mem| == TWO32 && LayoutOk(l) && k < WORDS
    ensures Words(l, SetWord(l, mem, k, v)) == Words(l, mem)[k := v]
    ensures UserEq(l, SetWord(l, mem, k, v), mem)
  {
    hide Le32, EncLe32;
    var m := SetWord(l, mem, k, v);
    forall j | 0 <= j < WORDS ensures WordAt(l, m, j) == if j == k then v else WordAt(l, mem, j) {
      if j == k {
        SetHere(mem, At(l, k), v);
      } else {
        Le32Exact(m, mem, At(l, j));
      }
    }
    forall p | 0 <= p < TWO32 && !InKernel(l, p) ensures m[p] == mem[p] {
      assert !InWord(l, k, p);
    }
  }

  lemma SetHere(mem: seq<byte>, o: nat, v: Word)
    requires o + 4 <= |mem|
    ensures Le32(Patch(mem, o, EncLe32(v)), o) == v
  {
    hide EncLe32;
    var e, m := EncLe32(v), Patch(mem, o, EncLe32(v));
    assert m[o] == e[0] && m[o + 1] == e[1] && m[o + 2] == e[2] && m[o + 3] == e[3];
  }

  lemma UserEqTrans(l: Layout, a: seq<byte>, b: seq<byte>, c: seq<byte>)
    requires |a| == |b| == |c| == TWO32 && LayoutOk(l) && UserEq(l, a, b) && UserEq(l, b, c)
    ensures UserEq(l, a, c)
  {
    hide InKernel;
  }

  /** The same store over two memories that agree outside the kernel's words. */
  lemma PutUserEq(l: Layout, a: seq<byte>, b: seq<byte>, at: Word, data: seq<byte>)
    requires |a| == |b| == TWO32 && LayoutOk(l) && UserEq(l, a, b) && |data| <= TWO32
    ensures UserEq(l, Put(a, at, data), Put(b, at, data))
  {
    hide InKernel;
  }

  // ---------- the check four calls make ----------

  /** `linux_user_range`. */
  predicate UserRange(addr: Word, len: Word) {
    addr >= USER_BASE && len <= USER_END - USER_BASE && addr <= USER_END - len
  }

  /** It accepts exactly the ranges inside the user window, and those miss the kernel's words. */
  lemma UserRangeMisses(l: Layout, addr: Word, len: Word)
    requires LayoutOk(l)
    ensures UserRange(addr, len) <==> 0x8100_0000 <= addr && addr + len <= 0x8140_0000
    ensures UserRange(addr, len) ==> Misses(l, addr, len)
  {
    if UserRange(addr, len) {
      forall p: Word | InKernel(l, p) ensures Off(p, addr) >= len {
        var k :| 0 <= k < WORDS && InWord(l, k, p);
      }
    }
  }
}
