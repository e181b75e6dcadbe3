/** The checksum shape used throughout the NVRAM library: fold a stream into an accumulator,
    alternately adding and xoring, modulo 2^8 or 2^32. */
module Alternating {
  /** Bitwise exclusive or of two numbers. */
  function Xor(a: nat, b: nat): nat
    decreases a + b
  {
    if a == 0 && b == 0 then 0 else (a % 2 + b % 2) % 2 + 2 * Xor(a / 2, b / 2)
  }

  /** The lowest bit and the others. */
  lemma XorBits(a: nat, b: nat)
    ensures Xor(a, b) % 2 == (a % 2 + b % 2) % 2 && Xor(a, b) / 2 == Xor(a / 2, b / 2)
    ensures Xor(0, 0) == 0
  {
  }

  lemma {:induction false} XorUndoesItself(a: nat, b: nat)
    ensures Xor(Xor(a, b), b) == a
    decreases a + b
  {
    hide Xor;
    XorBits(a, b);
    if a != 0 || b != 0 {
      var x := Xor(a, b);
      XorBits(x, b);
      XorUndoesItself(a / 2, b / 2);
      assert Xor(x, b) / 2 == a / 2;
      SameBit(a % 2, b % 2);
    }
  }

  lemma SameBit(a: nat, b: nat)
    requires a < 2 && b < 2
    ensures ((a + b) % 2 + b) % 2 == a
  {
  }

  lemma {:induction false} XorCommutes(a: nat, b: nat)
    ensures Xor(a, b) == Xor(b, a)
    decreases a + b
  {
    if a != 0 || b != 0 {
      XorCommutes(a / 2, b / 2);
    }
  }

  lemma {:induction false} XorWithZero(a: nat)
    ensures Xor(0, a) == a
  {
    if a > 0 {
      XorWithZero(a / 2);
    }
  }

  function Pow2(k: nat): nat { if k == 0 then 1 else 2 * Pow2(k - 1) }

  lemma {:induction false} XorBelow(a: nat, b: nat, k: nat)
    requires a < Pow2(k) && b < Pow2(k)
    ensures Xor(a, b) < Pow2(k)
  {
    if k != 0 && (a != 0 || b != 0) {
      XorBelow(a / 2, b / 2, k - 1);
    }
  }

  /** Bit `k` of a number. */
  function Bit(n: nat, k: nat): nat
    decreases k
  {
    if k == 0 then n % 2 else Bit(n / 2, k - 1)
  }

  /** Bit by bit, exclusive or is 1 where the two numbers differ. */
  lemma {:induction false} XorBit(a: nat, b: nat, k: nat)
    ensures Bit(Xor(a, b), k) == if Bit(a, k) == Bit(b, k) then 0 else 1
    decreases k
  {
    hide Xor;
    XorBits(a, b);
    if k > 0 {
      XorBit(a / 2, b / 2, k - 1);
    }
  }

  /** The two accumulator widths of the source: `char` and `unsigned int`. */
  predicate Width(m: nat) { m == 0x100 || m == 0x1_0000_0000 }

  lemma WidthIsPow2()
    ensures Pow2(8) == 0x100 && Pow2(32) == 0x1_0000_0000
  {
    assert Pow2(4) == 0x10;
    assert Pow2(8) == 0x100;
    assert Pow2(12) == 0x1000;
    assert Pow2(16) == 0x1_0000;
    assert Pow2(20) == 0x10_0000;
    assert Pow2(24) == 0x100_0000;
    assert Pow2(28) == 0x1000_0000;
  }

  /** `acc ^= x` or `acc += x` in an unsigned type of `m` values. */
  function Mix(m: nat, acc: nat, x: nat, xorNext: bool): (r: nat)
    requires Width(m) && acc < m && x < m
    ensures r < m
  {
    WidthIsPow2();
    if xorNext then
      XorBelow(acc, x, if m == 0x100 then 8 else 32);
      Xor(acc, x)
    else (acc + x) % m
  }

  predicate AllBelow(m: nat, s: seq<nat>) { forall i | 0 <= i < |s| :: s[i] < m }

  /** Fold `s` into `acc`, the first step xoring when `xorNext` and the steps alternating. */
  function Fold(m: nat, s: seq<nat>, acc: nat, xorNext: bool): (r: nat)
    requires Width(m) && acc < m && AllBelow(m, s)
    ensures r < m
  {
    if s == [] then acc else Fold(m, s[1..], Mix(m, acc, s[0], xorNext), !xorNext)
  }

  /** Each step is a bijection of the accumulator. */
  lemma MixInjectiveInAcc(m: nat, a: nat, b: nat, x: nat, xorNext: bool)
    requires Width(m) && a < m && b < m && x < m
    requires Mix(m, a, x, xorNext) == Mix(m, b, x, xorNext)
    ensures a == b
  {
    if xorNext {
      XorUndoesItself(a, x);
      XorUndoesItself(b, x);
    }
  }

  /** Each step is a bijection of the value mixed in. */
  lemma MixInjectiveInValue(m: nat, a: nat, x: nat, y: nat, xorNext: bool)
    requires Width(m) && a < m && x < m && y < m
    requires Mix(m, a, x, xorNext) == Mix(m, a, y, xorNext)
    ensures x == y
  {
    if xorNext {
      XorCommutes(a, x);
      XorCommutes(a, y);
      XorUndoesItself(x, a);
      XorUndoesItself(y, a);
    }
  }

  lemma {:induction false} FoldInjectiveInAcc(m: nat, s: seq<nat>, a: nat, b: nat, xorNext: bool)
    requires Width(m) && a < m && b < m && AllBelow(m, s) && a != b
    ensures Fold(m, s, a, xorNext) != Fold(m, s, b, xorNext)
  {
    if s != [] {
      var a', b' := Mix(m, a, s[0], xorNext), Mix(m, b, s[0], xorNext);
      if a' == b' {
        MixInjectiveInAcc(m, a, b, s[0], xorNext);
      } else {
        FoldInjectiveInAcc(m, s[1..], a', b', !xorNext);
      }
    }
  }

  /** Changing any one element changes the fold. */
  lemma {:induction false} FoldDetectsOneChange(m: nat, s: seq<nat>, k: nat, v: nat, acc: nat, xorNext: bool)
    requires Width(m) && acc < m && AllBelow(m, s) && k < |s| && v < m && v != s[k]
    ensures AllBelow(m, s[k := v])
    ensures Fold(m, s[k := v], acc, xorNext) != Fold(m, s, acc, xorNext)
  {
    var t := s[k := v];
    var acc' := Mix(m, acc, s[0], xorNext);
    if k == 0 {
      assert t[1..] == s[1..];
      if Mix(m, acc, v, xorNext) == acc' {
        MixInjectiveInValue(m, acc, s[0], v, xorNext);
      } else {
        FoldInjectiveInAcc(m, s[1..], Mix(m, acc, v, xorNext), acc', !xorNext);
      }
    } else {
      assert t[1..] == s[1..][k - 1 := v];
      FoldDetectsOneChange(m, s[1..], k - 1, v, acc', !xorNext);
    }
  }

  /** The phase after `n` steps. */
  function PhaseAfter(n: nat, xorNext: bool): bool { if n % 2 == 0 then xorNext else !xorNext }

  /** Folding a concatenation continues with the phase the first part left behind. */
  lemma {:induction false} FoldAppend(m: nat, s: seq<nat>, t: seq<nat>, acc: nat, xorNext: bool)
    requires Width(m) && acc < m && AllBelow(m, s) && AllBelow(m, t) && AllBelow(m, s + t)
    ensures Fold(m, s + t, acc, xorNext) == Fold(m, t, Fold(m, s, acc, xorNext), PhaseAfter(|s|, xorNext))
  {
    if s == [] {
      assert s + t == t;
    } else {
      var acc' := Mix(m, acc, s[0], xorNext);
      assert (s + t)[1..] == s[1..] + t;
      assert Fold(m, s + t, acc, xorNext) == Fold(m, s[1..] + t, acc', !xorNext);
      assert PhaseAfter(|s|, xorNext) == PhaseAfter(|s[1..]|, !xorNext);
      FoldAppend(m, s[1..], t, acc', !xorNext);
    }
  }

  lemma FoldOfNothing(m: nat, acc: nat, xorNext: bool)
    requires Width(m) && acc < m
    ensures Fold(m, [], acc, xorNext) == acc
  {
  }

  /** Folding one more element. */
  lemma FoldOneMore(m: nat, s: seq<nat>, x: nat, acc: nat, xorNext: bool)
    requires Width(m) && acc < m && AllBelow(m, s) && AllBelow(m, s + [x]) && x < m
    ensures Fold(m, s + [x], acc, xorNext) == Mix(m, Fold(m, s, acc, xorNext), x, PhaseAfter(|s|, xorNext))
  {
    hide Mix;
    FoldAppend(m, s, [x], acc, xorNext);
    assert [x][1..] == [];
  }
}
