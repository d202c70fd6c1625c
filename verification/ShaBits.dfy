/** What the logical functions of FIPS 180-4 do to single bits, as section 4.1.2 and section 3.2 describe them. */
module ShaBits {
  import opened Bits
  import opened Fips180

  /** Bit `i` of a number, counted from the least significant one. */
  function Bit(x: nat, i: nat): (bit: nat)
    ensures bit <= 1
  {
    if i == 0 then x % 2 else Bit(x / 2, i - 1)
  }

  lemma {:induction false} AndBit(x: nat, y: nat, width: nat, i: nat)
    requires i < width
    ensures Bit(And(x, y, width), i) == if Bit(x, i) == 1 && Bit(y, i) == 1 then 1 else 0
  {
    AndHalves(x, y, width);
    if i > 0 {
      AndBit(x / 2, y / 2, width - 1, i - 1);
    }
  }

  lemma AndHalves(x: nat, y: nat, width: nat)
    requires width > 0
    ensures And(x, y, width) % 2 == if x % 2 == 1 && y % 2 == 1 then 1 else 0
    ensures And(x, y, width) / 2 == And(x / 2, y / 2, width - 1)
  {
    var bit := if x % 2 == 1 && y % 2 == 1 then 1 else 0;
    assert (x % 2) * (y % 2) == bit;
  }

  lemma {:induction false} XorBit(x: nat, y: nat, width: nat, i: nat)
    requires i < width
    ensures Bit(Xor(x, y, width), i) == if Bit(x, i) == Bit(y, i) then 0 else 1
  {
    XorHalves(x, y, width);
    hide Xor;
    if i > 0 {
      XorBit(x / 2, y / 2, width - 1, i - 1);
    }
  }

  lemma XorHalves(x: nat, y: nat, width: nat)
    requires width > 0
    ensures Xor(x, y, width) % 2 == if x % 2 == y % 2 then 0 else 1
    ensures Xor(x, y, width) / 2 == Xor(x / 2, y / 2, width - 1)
  {
    ParityOfSum(x, y);
    var rest, bit := Xor(x / 2, y / 2, width - 1), (x + y) % 2;
    assert Xor(x, y, width) == 2 * rest + bit;
    hide Xor;
  }

  lemma ParityOfSum(x: nat, y: nat)
    ensures (x + y) % 2 == if x % 2 == y % 2 then 0 else 1
  {
    assert x + y == 2 * (x / 2 + y / 2) + (x % 2 + y % 2);
  }

  lemma {:induction false} ComplementBit(x: nat, width: nat, i: nat)
    requires i < width && x < Pow2(width)
    ensures Bit(Pow2(width) - 1 - x, i) == 1 - Bit(x, i)
  {
    var n := Pow2(width - 1);
    assert Pow2(width) - 1 - x == 2 * (n - 1 - x / 2) + (1 - x % 2);
    if i > 0 {
      ComplementBit(x / 2, width - 1, i - 1);
    }
  }

  /** Ch: the bit of `x` chooses between those of `y` and `z`. */
  lemma ChooseBit(x: Word, y: Word, z: Word, i: nat)
    requires i < 32
    ensures Bit(Ch(x, y, z), i) == if Bit(x, i) == 1 then Bit(y, i) else Bit(z, i)
  {
    hide And, Xor, Bit, Pow2;
    PowerValues();
    ComplementBit(x, 32, i);
    AndBit(x, y, 32, i);
    AndBit(Complement(x), z, 32, i);
    XorBit(AndWord(x, y), AndWord(Complement(x), z), 32, i);
  }

  /** Maj: the bit that at least two have. */
  lemma MajorityBit(x: Word, y: Word, z: Word, i: nat)
    requires i < 32
    ensures Bit(Maj(x, y, z), i) == if Bit(x, i) + Bit(y, i) + Bit(z, i) >= 2 then 1 else 0
  {
    hide And, Xor, Bit, Pow2;
    AndBit(x, y, 32, i);
    AndBit(x, z, 32, i);
    AndBit(y, z, 32, i);
    XorBit(AndWord(x, y), AndWord(x, z), 32, i);
    XorBit(XorWord(AndWord(x, y), AndWord(x, z)), AndWord(y, z), 32, i);
  }

  // Shifts and rotations.

  function Down(x: nat, n: nat): nat {
    DivisionShrinks(x, Pow2(n));
    x / Pow2(n)
  }

  lemma {:induction false} ShiftedBit(x: nat, n: nat, i: nat)
    ensures Bit(Down(x, n), i) == Bit(x, i + n)
  {
    if n > 0 {
      ShiftedBit(x / 2, n - 1, i);
      DivDiv(x, 2, Pow2(n - 1));
      assert 2 * Pow2(n - 1) == Pow2(n);
    }
  }

  function Stacked(low: nat, high: nat, n: nat): nat { low + high * Pow2(n) }

  lemma StackedHalves(low: nat, high: nat, n: nat)
    requires n > 0
    ensures Stacked(low, high, n) / 2 == Stacked(low / 2, high, n - 1) && Stacked(low, high, n) % 2 == low % 2
  {
    ShiftIsDouble(high, n);
    hide Pow2;
    var rest := high * Pow2(n - 1);
    assert Stacked(low, high, n) == low + 2 * rest;
  }

  lemma {:induction false} StackedBit(low: nat, high: nat, n: nat, i: nat)
    requires low < Pow2(n)
    ensures Bit(Stacked(low, high, n), i) == if i < n then Bit(low, i) else Bit(high, i - n)
  {
    if n == 0 {
      assert Stacked(low, high, 0) == high;
    } else {
      StackedHalves(low, high, n);
      assert low / 2 < Pow2(n - 1);
      hide Stacked, Pow2;
      if i > 0 {
        StackedBit(low / 2, high, n - 1, i - 1);
      }
    }
  }

  function Low(x: nat, n: nat): nat { x % Pow2(n) }

  lemma {:induction false} LowBit(x: nat, n: nat, i: nat)
    requires i < n
    ensures Bit(Low(x, n), i) == Bit(x, i)
  {
    assert Stacked(Low(x, n), Down(x, n), n) == x by {
      DivisionOf(x, Pow2(n));
    }
    hide Stacked, Down;
    StackedBit(Low(x, n), Down(x, n), n, i);
  }

  lemma RotrParts(x: Word, n: nat)
    requires 0 < n < 32
    ensures Down(x, n) < Pow2(32 - n)
    ensures Rotr(x, n) == Stacked(Down(x, n), Low(x, n), 32 - n)
  {
    hide Pow2;
    PowerValues();
    Pow2Sum(n, 32 - n);
    SwapBound(x, Pow2(n), Pow2(32 - n));
  }

  /** ROTR: every bit moves `n` places down, around the end of the word. */
  lemma RotatedBit(x: Word, n: nat, i: nat)
    requires 0 < n < 32 && i < 32
    ensures Bit(Rotr(x, n), i) == Bit(x, (i + n) % 32)
  {
    RotrParts(x, n);
    hide Bit, Pow2, Rotr, Down, Stacked;
    StackedBit(Down(x, n), Low(x, n), 32 - n, i);
    if i < 32 - n {
      ShiftedBit(x, n, i);
    } else {
      LowBit(x, n, i - (32 - n));
    }
  }

  /** SHR: every bit moves down, and zeros follow. */
  lemma ShiftedOutBit(x: Word, n: nat, i: nat)
    requires i < 32 && n < 32
    ensures Bit(Shr(x, n), i) == if i + n < 32 then Bit(x, i + n) else 0
  {
    ShiftedBit(x, n, i);
    if i + n >= 32 {
      PowerValues();
      HighBit(x, 32, i + n);
    }
  }

  lemma {:induction false} HighBit(x: nat, width: nat, i: nat)
    requires x < Pow2(width) && i >= width
    ensures Bit(x, i) == 0
  {
    if i > 0 {
      if width == 0 {
        HighBit(x / 2, 0, i - 1);
      } else {
        HighBit(x / 2, width - 1, i - 1);
      }
    }
  }

  /** The bits of a sum modulo two. */
  function Parity(bits: nat): nat { bits % 2 }

  /** The four sigma functions, bit by bit: the rotations and shifts of section 4.1.2. */
  lemma SigmaBits(x: Word, i: nat)
    requires i < 32
    ensures Bit(BigSigma0(x), i) == Parity(Bit(x, (i + 2) % 32) + Bit(x, (i + 13) % 32) + Bit(x, (i + 22) % 32))
    ensures Bit(BigSigma1(x), i) == Parity(Bit(x, (i + 6) % 32) + Bit(x, (i + 11) % 32) + Bit(x, (i + 25) % 32))
    ensures Bit(SmallSigma0(x), i) ==
      Parity(Bit(x, (i + 7) % 32) + Bit(x, (i + 18) % 32) + if i + 3 < 32 then Bit(x, i + 3) else 0)
    ensures Bit(SmallSigma1(x), i) ==
      Parity(Bit(x, (i + 17) % 32) + Bit(x, (i + 19) % 32) + if i + 10 < 32 then Bit(x, i + 10) else 0)
  {
    hide Rotr, Shr, Xor, Bit;
    ThreeBits(Rotr(x, 2), Rotr(x, 13), Rotr(x, 22), i);
    ThreeBits(Rotr(x, 6), Rotr(x, 11), Rotr(x, 25), i);
    ThreeBits(Rotr(x, 7), Rotr(x, 18), Shr(x, 3), i);
    ThreeBits(Rotr(x, 17), Rotr(x, 19), Shr(x, 10), i);
    hide *;
    RotatedBit(x, 2, i);
    RotatedBit(x, 13, i);
    RotatedBit(x, 22, i);
    RotatedBit(x, 6, i);
    RotatedBit(x, 11, i);
    RotatedBit(x, 25, i);
    RotatedBit(x, 7, i);
    RotatedBit(x, 18, i);
    RotatedBit(x, 17, i);
    RotatedBit(x, 19, i);
    ShiftedOutBit(x, 3, i);
    ShiftedOutBit(x, 10, i);
  }

  lemma ThreeBits(x: Word, y: Word, z: Word, i: nat)
    requires i < 32
    ensures Bit(XorWord(XorWord(x, y), z), i) == Parity(Bit(x, i) + Bit(y, i) + Bit(z, i))
  {
    hide Bit, Xor;
    XorBit(x, y, 32, i);
    XorBit(XorWord(x, y), z, 32, i);
  }
}
