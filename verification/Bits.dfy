/** Machine words as natural numbers, bit by bit. */
module Bits {
  import opened Powers

  predicate Bit(x: nat, k: nat)
    decreases k
  {
    if k == 0 then x % 2 == 1 else Bit(x / 2, k - 1)
  }

  datatype Operator = And | Or | Xor {
    predicate Of(p: bool, q: bool) {
      match this
      case And => p && q
      case Or => p || q
      case Xor => p != q
    }
  }

  /** a & b, a | b or a ^ b. */
  function Bitwise(op: Operator, a: nat, b: nat): nat
    decreases a + b
  {
    if a == 0 && b == 0 then 0
    else (if op.Of(a % 2 == 1, b % 2 == 1) then 1 else 0) + 2 * Bitwise(op, a / 2, b / 2)
  }

  /** ~x in w bits. */
  function Not(x: nat, w: nat): nat {
    if w == 0 then 0 else (1 - x % 2) + 2 * Not(x / 2, w - 1)
  }

  /** x >> s. */
  function ShiftRight(x: nat, s: nat): nat
    decreases s
  {
    if s == 0 then x else ShiftRight(x / 2, s - 1)
  }

  lemma {:induction false} BitOfZero(k: nat)
    ensures !Bit(0, k)
  {
    if k > 0 { BitOfZero(k - 1); }
  }

  lemma {:induction false} BitOf(op: Operator, a: nat, b: nat, k: nat)
    ensures Bit(Bitwise(op, a, b), k) <==> op.Of(Bit(a, k), Bit(b, k))
    decreases k
  {
    if a == 0 && b == 0 {
      BitOfZero(k);
    } else {
      assert Bitwise(op, a, b) / 2 == Bitwise(op, a / 2, b / 2);
      if k > 0 { BitOf(op, a / 2, b / 2, k - 1); }
    }
  }

  lemma {:induction false} BitOfNot(x: nat, w: nat, k: nat)
    ensures Bit(Not(x, w), k) <==> k < w && !Bit(x, k)
    decreases w
  {
    if w == 0 {
      BitOfZero(k);
    } else if k > 0 {
      BitOfNot(x / 2, w - 1, k - 1);
    }
  }

  lemma {:induction false} BitOfShiftRight(x: nat, s: nat, k: nat)
    ensures Bit(ShiftRight(x, s), k) == Bit(x, k + s)
    decreases s
  {
    if s > 0 { BitOfShiftRight(x / 2, s - 1, k); }
  }

  lemma {:induction false} BitOfShiftLeft(x: nat, s: nat, k: nat)
    ensures Bit(x * Pow2(s), k) <==> k >= s && Bit(x, k - s)
    decreases s
  {
    if s > 0 {
      assert x * Pow2(s) == 2 * (x * Pow2(s - 1));
      if k > 0 { BitOfShiftLeft(x, s - 1, k - 1); }
    }
  }

  /** A number is its bits. */
  lemma {:induction false} SameBits(a: nat, b: nat)
    requires forall k: nat :: Bit(a, k) == Bit(b, k)
    ensures a == b
    decreases a + b
  {
    if a != 0 || b != 0 {
      assert Bit(a, 0) == Bit(b, 0);
      forall k: nat ensures Bit(a / 2, k) == Bit(b / 2, k) {
        assert Bit(a, k + 1) == Bit(b, k + 1);
      }
      SameBits(a / 2, b / 2);
    }
  }

  /** A word of w bits has no bits from w on, */
  lemma {:induction false} NoHighBit(x: nat, w: nat, k: nat)
    requires x < Pow2(w) && k >= w
    ensures !Bit(x, k)
    decreases w
  {
    if w == 0 {
      BitOfZero(k);
    } else {
      NoHighBit(x / 2, w - 1, k - 1);
    }
  }

  /** and every other number does. */
  lemma {:induction false} HighBit(x: nat, w: nat) returns (k: nat)
    requires x >= Pow2(w)
    ensures k >= w && Bit(x, k)
    decreases x
  {
    if x == 1 {
      k := 0;
    } else {
      k := HighBit(x / 2, if w == 0 then 0 else w - 1);
      k := k + 1;
    }
  }

  /** A word has the bits a and b exactly when the mask of the two passes through it. */
  lemma MaskTest(word: nat, a: nat, b: nat)
    ensures var mask := Bitwise(Or, Pow2(a), Pow2(b));
      Bitwise(And, word, mask) == mask <==> Bit(word, a) && Bit(word, b)
  {
    var mask := Bitwise(Or, Pow2(a), Pow2(b));
    forall k: nat
      ensures Bit(mask, k) <==> k == a || k == b
      ensures Bit(Bitwise(And, word, mask), k) <==> Bit(word, k) && Bit(mask, k)
    {
      BitOf(Or, Pow2(a), Pow2(b), k);
      BitOfPow2(a, k);
      BitOfPow2(b, k);
      BitOf(And, word, mask, k);
    }
    if Bit(word, a) && Bit(word, b) {
      SameBits(Bitwise(And, word, mask), mask);
    } else {
      assert Bit(mask, a) && Bit(mask, b);
    }
  }

  lemma BitOfPow2(a: nat, k: nat)
    ensures Bit(Pow2(a), k) <==> k == a
  {
    BitOfShiftLeft(1, a, k);
    if k > a { BitOfZero(k - a - 1); }
  }

  /** Masking with 2^w - 1 is the remainder modulo 2^w. */
  lemma {:induction false} LowBits(x: nat, w: nat)
    ensures Bitwise(And, x, Pow2(w) - 1) == x % Pow2(w)
    decreases w
  {
    hide Bitwise;
    if w == 0 {
      AndZero(x);
    } else {
      var m := Pow2(w - 1);
      LowBits(x / 2, w - 1);
      RemainderOfHalf(x, m);
      AndOdd(x, m - 1);
    }
  }

  lemma AndOdd(x: nat, y: nat)
    ensures Bitwise(And, x, 2 * y + 1) == x % 2 + 2 * Bitwise(And, x / 2, y)
  {
    assert (2 * y + 1) / 2 == y && (2 * y + 1) % 2 == 1;
  }

  lemma RemainderOfHalf(x: nat, m: nat)
    requires m > 0
    ensures x % (2 * m) == 2 * (x / 2 % m) + x % 2
  {
    var q, r := x / 2 / m, x / 2 % m;
    assert x / 2 == m * q + r;
    assert (2 * m) * q == 2 * (m * q);
    ModUnique(x, q, 2 * r + x % 2, 2 * m);
  }

  lemma {:induction false} AndZero(x: nat)
    ensures Bitwise(And, x, 0) == 0
  {
    if x > 0 { AndZero(x / 2); }
  }
}
