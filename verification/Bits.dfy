/** Python's bit operators on unbounded non-negative integers, defined on binary
    digits, with the laws the replay bitmap needs. */
module Bits {

  /** x << n */
  function Shl(x: nat, n: nat): nat {
    if n == 0 then x else 2 * Shl(x, n - 1)
  }

  /** Binary digit i of x, least significant first. */
  predicate Bit(x: nat, i: nat) {
    if i == 0 then x % 2 == 1 else Bit(x / 2, i - 1)
  }

  /** x & y */
  function And(x: nat, y: nat): nat {
    if x == 0 || y == 0 then 0
    else 2 * And(x / 2, y / 2) + if x % 2 == 1 && y % 2 == 1 then 1 else 0
  }

  /** x | y */
  function Or(x: nat, y: nat): nat {
    if x == 0 then y else if y == 0 then x
    else 2 * Or(x / 2, y / 2) + if x % 2 == 1 || y % 2 == 1 then 1 else 0
  }

  /** x ^ y */
  function Xor(x: nat, y: nat): nat {
    if x == 0 then y else if y == 0 then x
    else 2 * Xor(x / 2, y / 2) + if x % 2 != y % 2 then 1 else 0
  }

  /** (1 << n) - 1 */
  function Mask(n: nat): nat {
    ShlPositive(1, n);
    Shl(1, n) - 1
  }

  function Popcount(x: nat): nat {
    if x == 0 then 0 else x % 2 + Popcount(x / 2)
  }

  lemma ShlPositive(x: nat, n: nat)
    ensures x > 0 ==> Shl(x, n) > 0
  {}

  lemma {:induction false} BitOfZero(i: nat)
    ensures !Bit(0, i)
  {
    if i > 0 {
      BitOfZero(i - 1);
    }
  }

  lemma {:induction false} BitAnd(x: nat, y: nat, i: nat)
    ensures Bit(And(x, y), i) <==> Bit(x, i) && Bit(y, i)
  {
    if x == 0 || y == 0 {
      BitOfZero(i);
    } else if i > 0 {
      BitAnd(x / 2, y / 2, i - 1);
    }
  }

  lemma {:induction false} BitOr(x: nat, y: nat, i: nat)
    ensures Bit(Or(x, y), i) <==> Bit(x, i) || Bit(y, i)
  {
    if x == 0 || y == 0 {
      BitOfZero(i);
    } else if i > 0 {
      BitOr(x / 2, y / 2, i - 1);
    }
  }

  lemma {:induction false} BitXor(x: nat, y: nat, i: nat)
    ensures Bit(Xor(x, y), i) <==> Bit(x, i) != Bit(y, i)
  {
    if x == 0 || y == 0 {
      BitOfZero(i);
    } else if i > 0 {
      BitXor(x / 2, y / 2, i - 1);
    }
  }

  lemma {:induction false} BitShl(x: nat, n: nat, i: nat)
    ensures Bit(Shl(x, n), i) <==> i >= n && Bit(x, i - n)
  {
    if n > 0 && i > 0 {
      BitShl(x, n - 1, i - 1);
    }
  }

  lemma {:induction false} BitOne(i: nat)
    ensures Bit(1, i) <==> i == 0
  {
    if i > 0 {
      BitOfZero(i - 1);
    }
  }

  lemma BitUnit(n: nat, i: nat)
    ensures Bit(Shl(1, n), i) <==> i == n
  {
    BitShl(1, n, i);
    if i >= n {
      BitOne(i - n);
    }
  }

  lemma {:induction false} BitMask(n: nat, i: nat)
    ensures Bit(Mask(n), i) <==> i < n
  {
    if n == 0 {
      BitOfZero(i);
    } else if i > 0 {
      ShlPositive(1, n - 1);
      BitMask(n - 1, i - 1);
    }
  }

  /** Two numbers with the same binary digits are equal. */
  lemma {:induction false} SameBits(x: nat, y: nat)
    requires forall i: nat :: Bit(x, i) == Bit(y, i)
    ensures x == y
  {
    assert Bit(x, 0) == Bit(y, 0);
    if x > 1 || y > 1 {
      forall i: nat ensures Bit(x / 2, i) == Bit(y / 2, i) {
        assert Bit(x, i + 1) == Bit(y, i + 1);
      }
      SameBits(x / 2, y / 2);
    }
  }

  /** `x & (1 << n)` is truthy exactly when digit n of x is set. */
  lemma SingleBitTest(x: nat, n: nat)
    ensures And(x, Shl(1, n)) != 0 <==> Bit(x, n)
  {
    forall i: nat ensures Bit(And(x, Shl(1, n)), i) <==> i == n && Bit(x, n) {
      BitAnd(x, Shl(1, n), i);
      BitUnit(n, i);
    }
    if Bit(x, n) {
      BitOfZero(n);
    } else {
      forall i: nat ensures Bit(And(x, Shl(1, n)), i) == Bit(0, i) {
        BitOfZero(i);
      }
      SameBits(And(x, Shl(1, n)), 0);
    }
  }

  /** The window update `((x << shift) | 1) & ((1 << n) - 1)`, digit by digit. */
  lemma BitsOfSlide(x: nat, shift: nat, n: nat)
    requires shift >= 1
    ensures forall i: nat :: Bit(And(Or(Shl(x, shift), 1), Mask(n)), i)
                             <==> i < n && (i == 0 || (i >= shift && Bit(x, i - shift)))
  {
    var slid := Shl(x, shift);
    var marked := Or(slid, 1);
    forall i: nat
      ensures Bit(And(marked, Mask(n)), i) <==> i < n && (i == 0 || (i >= shift && Bit(x, i - shift)))
    {
      BitAnd(marked, Mask(n), i);
      BitMask(n, i);
      BitOr(slid, 1, i);
      BitOne(i);
      BitShl(x, shift, i);
    }
  }

  /** The update `x | (1 << n)`, digit by digit. */
  lemma BitsOfMark(x: nat, n: nat)
    ensures forall i: nat :: Bit(Or(x, Shl(1, n)), i) <==> Bit(x, i) || i == n
  {
    forall i: nat ensures Bit(Or(x, Shl(1, n)), i) <==> Bit(x, i) || i == n {
      BitOr(x, Shl(1, n), i);
      BitUnit(n, i);
    }
  }

  ghost predicate ClearFrom(x: nat, n: nat) {
    forall i: nat :: i >= n ==> !Bit(x, i)
  }

  /** A number fits in n digits exactly when every digit from n on is clear. */
  lemma {:induction false} FitsInBits(x: nat, n: nat)
    ensures x < Shl(1, n) <==> ClearFrom(x, n)
  {
    if n == 0 {
      if x == 0 {
        forall i: nat ensures !Bit(x, i) { BitOfZero(i); }
      } else if ClearFrom(x, 0) {
        forall i: nat ensures Bit(x, i) == Bit(0, i) { BitOfZero(i); }
        SameBits(x, 0);
      }
    } else {
      FitsInBits(x / 2, n - 1);
      if ClearFrom(x / 2, n - 1) {
        forall i: nat | i >= n ensures !Bit(x, i) {
          assert !Bit(x / 2, i - 1);
        }
      }
      if ClearFrom(x, n) {
        forall i: nat | i >= n - 1 ensures !Bit(x / 2, i) {
          assert !Bit(x, i + 1);
        }
      }
    }
  }

  /** Masking with n ones changes nothing exactly when x already fits. */
  lemma MaskIsIdentity(x: nat, n: nat)
    requires x < Shl(1, n)
    ensures And(x, Mask(n)) == x
  {
    FitsInBits(x, n);
    forall i: nat ensures Bit(And(x, Mask(n)), i) == Bit(x, i) {
      BitAnd(x, Mask(n), i);
      BitMask(n, i);
    }
    SameBits(And(x, Mask(n)), x);
  }

  // ---- Binary rendering: Python's format(x, "0{width}b") ----

  /** The minimal binary digits of x, most significant first; "0" for zero. */
  function BinaryDigits(x: nat): seq<bool> {
    (if x < 2 then [] else BinaryDigits(x / 2)) + [x % 2 == 1]
  }

  function PaddedBinary(x: nat, width: nat): seq<bool> {
    var digits := BinaryDigits(x);
    if |digits| < width then seq(width - |digits|, _ => false) + digits else digits
  }

  lemma {:induction false} BinaryDigitsAre(x: nat, n: nat)
    requires n >= 1 && x < Shl(1, n)
    ensures 1 <= |BinaryDigits(x)| <= n
    ensures forall j: nat :: j < |BinaryDigits(x)| ==> BinaryDigits(x)[|BinaryDigits(x)| - 1 - j] == Bit(x, j)
    ensures forall j: nat :: j >= |BinaryDigits(x)| ==> !Bit(x, j)
  {
    if x < 2 {
      forall j: nat | j >= 1 ensures !Bit(x, j) { BitOfZero(j - 1); }
    } else {
      assert n >= 2 by {
        assert Shl(1, 1) == 2;
      }
      BinaryDigitsAre(x / 2, n - 1);
      forall j: nat | j >= |BinaryDigits(x)| ensures !Bit(x, j) {
        assert !Bit(x / 2, j - 1);
      }
      forall j: nat | j < |BinaryDigits(x)|
        ensures BinaryDigits(x)[|BinaryDigits(x)| - 1 - j] == Bit(x, j)
      {
        if j > 0 {
          assert BinaryDigits(x / 2)[|BinaryDigits(x / 2)| - 1 - (j - 1)] == Bit(x / 2, j - 1);
        }
      }
    }
  }

  /** A number of at most `width` digits is rendered with exactly `width` digits,
      and position j from the left shows digit width - 1 - j. */
  lemma PaddedBinaryShowsBits(x: nat, width: nat)
    requires width >= 1 && x < Shl(1, width)
    ensures |PaddedBinary(x, width)| == width
    ensures forall j: nat :: j < width ==> PaddedBinary(x, width)[j] == Bit(x, width - 1 - j)
  {
    BinaryDigitsAre(x, width);
    var d := BinaryDigits(x);
    forall j: nat | j < width ensures PaddedBinary(x, width)[j] == Bit(x, width - 1 - j) {
      var pad := width - |d|;
      if j >= pad {
        assert PaddedBinary(x, width)[j] == d[|d| - 1 - (width - 1 - j)];
      }
    }
  }
}
