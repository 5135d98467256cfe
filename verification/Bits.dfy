/** Bytes, 16-bit words and the bitwise operations that the bridge applies to
    them, on unbounded integers with their widths written out. */
module Bits {

  type Byte = b: int | 0 <= b < 0x100

  type Word = w: int | 0 <= w < 0x10000

  /** Bitwise exclusive or, lowest bit first. */
  function Xor(a: nat, b: nat): nat
    decreases a + b
  {
    if a == 0 && b == 0 then 0 else 2 * Xor(a / 2, b / 2) + (a + b) % 2
  }

  function Pow2(k: nat): (p: nat)
    ensures p > 0
  {
    if k == 0 then 1 else 2 * Pow2(k - 1)
  }

  lemma {:induction false} Pow2Mono(j: nat, k: nat)
    requires j <= k
    ensures Pow2(j) <= Pow2(k)
    decreases k
  {
    if j < k {
      Pow2Mono(j, k - 1);
    }
  }

  /** `v | flag` for a mask of a single bit. */
  function WithFlag(v: Byte, flag: Byte): Byte
    requires flag in {0x20, 0x40, 0x80}
  {
    if HasFlag(v, flag) then v else v + flag
  }

  predicate HasFlag(v: Byte, flag: Byte)
    requires flag in {0x20, 0x40, 0x80}
  {
    (v / flag) % 2 == 1
  }

  lemma {:induction false} XorUnfold(a: nat, b: nat)
    ensures Xor(a, b) == 2 * Xor(a / 2, b / 2) + (a + b) % 2
  {
  }

  lemma {:induction false} XorStep(a: nat, b: nat)
    ensures Xor(a, b) / 2 == Xor(a / 2, b / 2) && Xor(a, b) % 2 == (a + b) % 2
  {
  }

  lemma {:induction false} XorComm(a: nat, b: nat)
    ensures Xor(a, b) == Xor(b, a)
    decreases a + b
  {
    if a != 0 || b != 0 {
      XorComm(a / 2, b / 2);
    }
  }

  lemma {:induction false} XorAssoc(a: nat, b: nat, c: nat)
    ensures Xor(Xor(a, b), c) == Xor(a, Xor(b, c))
    decreases a + b + c
  {
    hide Xor;
    if a == 0 && b == 0 && c == 0 {
      XorZero(0);
    } else {
      XorAssoc(a / 2, b / 2, c / 2);
      XorStep(a, b);
      XorStep(b, c);
      Parities(a, b, c, Xor(a, b), Xor(b, c));
      SameHalves(Xor(a, b), c, a, Xor(b, c));
    }
  }

  lemma SameHalves(a: nat, b: nat, c: nat, d: nat)
    requires Xor(a / 2, b / 2) == Xor(c / 2, d / 2) && (a + b) % 2 == (c + d) % 2
    ensures Xor(a, b) == Xor(c, d)
  {
    XorUnfold(a, b);
    XorUnfold(c, d);
  }

  lemma Parities(a: nat, b: nat, c: nat, left: nat, right: nat)
    requires left % 2 == (a + b) % 2 && right % 2 == (b + c) % 2
    ensures (left + c) % 2 == (a + right) % 2
  {
  }

  lemma {:induction false} XorZero(a: nat)
    ensures Xor(a, 0) == a && Xor(0, a) == a
  {
    if a != 0 {
      XorZero(a / 2);
    }
  }

  lemma {:induction false} XorIsZero(a: nat, b: nat)
    ensures Xor(a, b) == 0 <==> a == b
    decreases a + b
  {
    if a != 0 || b != 0 {
      XorIsZero(a / 2, b / 2);
    }
  }

  /** Masking twice with the same pattern restores the value. */
  lemma XorUndoes(a: nat, m: nat)
    ensures Xor(Xor(a, m), m) == a
  {
    XorAssoc(a, m, m);
    XorIsZero(m, m);
    XorZero(a);
  }

  lemma {:induction false} XorBelow(a: nat, b: nat, k: nat)
    requires a < Pow2(k) && b < Pow2(k)
    ensures Xor(a, b) < Pow2(k)
    decreases k
  {
    if k != 0 {
      XorBelow(a / 2, b / 2, k - 1);
    }
  }

  lemma {:induction false} XorTop(a: nat, b: nat, k: nat)
    requires a < Pow2(k) <= b < Pow2(k + 1)
    ensures Xor(a, b) >= Pow2(k)
    decreases k
  {
    if k == 0 {
      assert a == 0 && b == 1;
    } else {
      XorTop(a / 2, b / 2, k - 1);
    }
  }

  lemma XorByte(a: Byte, b: Byte)
    ensures Xor(a, b) < 0x100
  {
    assert Pow2(8) == 0x100 by { Pow2Eight(); }
    XorBelow(a, b, 8);
  }

  lemma Pow2Eight()
    ensures Pow2(8) == 0x100
  {
    assert Pow2(4) == 16;
  }

  lemma XorWord(a: Word, b: Word)
    ensures Xor(a, b) < 0x10000
  {
    Pow2Eight();
    assert Pow2(12) == 0x1000;
    assert Pow2(16) == 0x10000;
    XorBelow(a, b, 16);
  }

  lemma MultipleIsFar(t: int, d: int)
    requires d >= 0
    ensures t == 0 || t * d >= d || t * d <= -d
  {
  }

  lemma ModIs(a: nat, d: nat, q: nat, r: nat)
    requires r < d && a == q * d + r
    ensures a % d == r
  {
    var t := a / d - q;
    assert a % d == r - t * d;
    MultipleIsFar(t, d);
  }

  /** (a ^ b) ^ (c ^ d) == (a ^ c) ^ (b ^ d) */
  lemma XorSwap(a: nat, b: nat, c: nat, d: nat)
    ensures Xor(Xor(a, b), Xor(c, d)) == Xor(Xor(a, c), Xor(b, d))
  {
    XorAssoc(a, b, Xor(c, d));
    XorAssoc(b, c, d);
    XorComm(b, c);
    XorAssoc(c, b, d);
    XorAssoc(a, c, Xor(b, d));
  }
}
