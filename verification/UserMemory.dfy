/** User memory as the kernel's copy routines see it: 2^32 bytes, addresses wrap. */
module UserMemory {
  import opened Bytes
  import opened Machine

  /** How far `q` lies above `a`, around the end of memory. */
  function Off(q: Word, a: Word): Word {
    (q - a) % TWO32
  }

  lemma OffBack(a: Word, i: nat, q: Word)
    requires i < TWO32
    ensures q == Wrap(a + i) <==> Off(q, a) == i
  {
  }

  lemma OffShift(a: Word, i: nat, q: Word)
    requires i < TWO32
    ensures Off(q, Wrap(a + i)) == if Off(q, a) >= i then Off(q, a) - i else Off(q, a) - i + TWO32
  {
  }

  lemma OffNear(a: Word, q: Word)
    ensures Off(q, a) == if a <= q then q - a else q - a + TWO32
  {
  }

  /** Memory with `data` stored from address `a` on. */
  function Put(mem: seq<byte>, a: Word, data: seq<byte>): (r: seq<byte>)
    requires |mem| == TWO32 && |data| <= TWO32
    ensures |r| == TWO32
    ensures forall q :: 0 <= q < TWO32 ==> r[q] == if Off(q, a) < |data| then data[Off(q, a)] else mem[q]
  {
    seq(TWO32, q requires 0 <= q < TWO32 => if Off(q, a) < |data| then data[Off(q, a)] else mem[q])
  }

  lemma PutStep(mem: seq<byte>, a: Word, data: seq<byte>, i: nat)
    requires |mem| == TWO32 && |data| <= TWO32 && i < |data|
    ensures Put(mem, a, data[..i])[Wrap(a + i) := data[i]] == Put(mem, a, data[..i + 1])
  {
    var x, y := Put(mem, a, data[..i])[Wrap(a + i) := data[i]], Put(mem, a, data[..i + 1]);
    forall q | 0 <= q < TWO32 ensures x[q] == y[q] {
      OffBack(a, i, q);
    }
  }

  lemma PutNothing(mem: seq<byte>, a: Word)
    requires |mem| == TWO32
    ensures Put(mem, a, []) == mem
  {
  }

  /** A store inside a range just stored. */
  lemma PutInside(mem: seq<byte>, a: Word, base: seq<byte>, o: nat, d: seq<byte>)
    requires |mem| == TWO32 && |base| < TWO32 && o + |d| <= |base|
    ensures Put(Put(mem, a, base), Wrap(a + o), d) == Put(mem, a, Patch(base, o, d))
  {
    var x, y := Put(Put(mem, a, base), Wrap(a + o), d), Put(mem, a, Patch(base, o, d));
    forall q | 0 <= q < TWO32 ensures x[q] == y[q] {
      OffShift(a, o, q);
    }
  }

  /** A store right behind a range just stored. */
  lemma PutBehind(mem: seq<byte>, a: Word, s: seq<byte>, t: seq<byte>)
    requires |mem| == TWO32 && |s| + |t| < TWO32
    ensures Put(Put(mem, a, s), Wrap(a + |s|), t) == Put(mem, a, s + t)
  {
    var x, y := Put(Put(mem, a, s), Wrap(a + |s|), t), Put(mem, a, s + t);
    forall q | 0 <= q < TWO32 ensures x[q] == y[q] {
      OffShift(a, |s|, q);
    }
  }

  /** Reading back what was stored, when the range does not wrap. */
  lemma PutSlice(mem: seq<byte>, a: Word, data: seq<byte>)
    requires |mem| == TWO32 && a + |data| <= TWO32
    ensures Put(mem, a, data)[a..a + |data|] == data
    ensures forall q :: 0 <= q < TWO32 && !(a <= q < a + |data|) ==> Put(mem, a, data)[q] == mem[q]
  {
    hide Put, Off;
    var m := Put(mem, a, data);
    var x := m[a..a + |data|];
    forall k | 0 <= k < |data| ensures x[k] == data[k] {
      OffNear(a, a + k);
      assert x[k] == m[a + k];
    }
    forall q | 0 <= q < TWO32 && !(a <= q < a + |data|) ensures m[q] == mem[q] {
      OffNear(a, q);
    }
  }

  /** `linux_copy_to_user`. */
  method CopyOut(mem: seq<byte>, a: Word, data: seq<byte>) returns (r: seq<byte>)
    requires |mem| == TWO32 && |data| <= TWO32
    ensures r == Put(mem, a, data)
  {
    hide Put;
    r := mem;
    PutNothing(mem, a);
    for i := 0 to |data|
      invariant r == Put(mem, a, data[..i])
    {
      PutStep(mem, a, data, i);
      r := r[Wrap(a + i) := data[i]];
    }
    assert data[..|data|] == data;
  }

  /** `linux_zero_user`. */
  method ZeroOut(mem: seq<byte>, a: Word, len: nat) returns (r: seq<byte>)
    requires |mem| == TWO32 && len <= TWO32
    ensures r == Put(mem, a, Zeros(len))
  {
    hide Put;
    r := mem;
    PutNothing(mem, a);
    for i := 0 to len
      invariant r == Put(mem, a, Zeros(len)[..i])
    {
      PutStep(mem, a, Zeros(len), i);
      r := r[Wrap(a + i) := 0];
    }
    assert Zeros(len)[..len] == Zeros(len);
  }

  // ---------- strings in user memory ----------

  /** The bytes of an ASCII literal. */
  function Lit(s: string): (b: seq<byte>)
    ensures |b| == |s|
  {
    seq(|s|, i requires 0 <= i < |s| => s[i] as int % 256)
  }

  /** The NUL-terminated string at `a` is `text`. */
  ghost predicate StringIs(mem: seq<byte>, a: Word, text: seq<byte>)
    requires |mem| == TWO32
  {
    forall i :: 0 <= i <= |text| ==> CharIs(mem, a, text, i)
  }

  predicate CharIs(mem: seq<byte>, a: Word, text: seq<byte>, i: nat)
    requires |mem| == TWO32 && i <= |text|
  {
    mem[Wrap(a + i)] == if i < |text| then text[i] else 0
  }

  /** One address holds one string. */
  lemma SameText(mem: seq<byte>, a: Word, s: seq<byte>, t: seq<byte>)
    requires |mem| == TWO32 && StringIs(mem, a, s) && StringIs(mem, a, t) && 0 !in s && 0 !in t
    ensures s == t
  {
    NotShorter(mem, a, s, t);
    NotShorter(mem, a, t, s);
    forall i | 0 <= i < |s| ensures s[i] == t[i] {
      assert CharIs(mem, a, s, i) && CharIs(mem, a, t, i);
    }
  }

  lemma NotShorter(mem: seq<byte>, a: Word, s: seq<byte>, t: seq<byte>)
    requires |mem| == TWO32 && StringIs(mem, a, s) && StringIs(mem, a, t) && 0 !in t
    ensures |t| <= |s|
  {
    var k := if |s| < |t| then |s| else 0;
    assert CharIs(mem, a, s, |s|);
    assert CharIs(mem, a, t, k);
  }

  /** `linux_user_streq`: gives up after 128 characters, which no kernel path reaches. */
  method UserStrEq(mem: seq<byte>, a: Word, text: seq<byte>) returns (eq: bool)
    requires |mem| == TWO32 && |text| <= 128 && 0 !in text
    ensures eq <==> StringIs(mem, a, text)
  {
    var i := 0;
    while true
      invariant 0 <= i <= |text|
      invariant forall k :: 0 <= k < i ==> CharIs(mem, a, text, k)
      decreases |text| - i
    {
      var c := if i < |text| then text[i] else 0;
      if i > 128 || mem[Wrap(a + i)] != c {
        assert !CharIs(mem, a, text, i);
        return false;
      }
      assert CharIs(mem, a, text, i);
      if c == 0 {
        return true;
      }
      i := i + 1;
    }
  }
}
