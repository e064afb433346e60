/** The checksum as what CRC-32 is defined to be: the remainder of a long division of polynomials
    over GF(2), and the residue a receiver can check. */
module CrcDivision {
  import opened Bits
  import opened Crc32
  import opened Flx2

  // ---- polynomials as digits, highest power first -----------------------------------------------

  /** The exponents of the generator polynomial of IEEE 802.3. */
  const GENERATOR: set<nat> := {32, 26, 23, 22, 16, 12, 11, 10, 8, 7, 5, 4, 2, 1, 0}

  /** Its coefficient of x to the power 32 - i. */
  function GeneratorDigit(i: nat): bit
    requires i <= 32
  {
    if 32 - i in GENERATOR then 1 else 0
  }

  function AddBit(a: bit, b: bit): bit {
    if a == b then 0 else 1
  }

  /** One step of long division: subtract the generator from the leading digits if the first is 1,
      and drop the first digit. */
  ghost function Subtracted(s: seq<bit>): (r: seq<bit>)
    requires |s| > 32
    ensures |r| == |s| - 1
  {
    seq(|s| - 1, i requires 0 <= i < |s| - 1 =>
      if s[0] == 1 && i < 32 then AddBit(s[i + 1], GeneratorDigit(i + 1)) else s[i + 1])
  }

  /** The remainder of the division by the generator: its 32 digits. */
  ghost function Remainder(s: seq<bit>): (r: seq<bit>)
    requires |s| >= 32
    ensures |r| == 32
    decreases |s|
  {
    if |s| == 32 then s else Remainder(Subtracted(s))
  }

  /** The digits of a message in the order they are sent: the low bit of a byte first. */
  ghost function ByteDigits(b: nat, k: nat): (s: seq<bit>)
    ensures |s| == k
    decreases k
  {
    if k == 0 then [] else [b % 2] + ByteDigits(b / 2, k - 1)
  }

  ghost function Digits(data: seq<byte>): (s: seq<bit>)
    ensures |s| == 8 * |data|
  {
    if |data| == 0 then [] else Digits(data[..|data| - 1]) + ByteDigits(data[|data| - 1], 8)
  }

  /** A digit, or one of the zeros after the last. */
  function DigitAt(s: seq<bit>, i: nat): bit {
    if i < |s| then s[i] else 0
  }

  /** The message times x^32, with its first 32 digits inverted. */
  ghost function Dividend(data: seq<byte>): (s: seq<bit>)
    ensures |s| == 8 * |data| + 32
  {
    var d := Digits(data);
    seq(|d| + 32, i requires 0 <= i < |d| + 32 => if i < 32 then 1 - DigitAt(d, i) else DigitAt(d, i))
  }

  /** Bit number i of a word. */
  function BitOf(c: nat, i: nat): bit
    decreases i
  {
    if i == 0 then c % 2 else BitOf(c / 2, i - 1)
  }

  // ---- bits of words --------------------------------------------------------------------------------

  lemma {:induction false} BitXor(a: nat, b: nat, i: nat)
    ensures BitOf(Xor(a, b), i) == AddBit(BitOf(a, i), BitOf(b, i))
    decreases i
  {
    XorStep(a, b);
    if i == 0 {
    } else {
      BitXor(a / 2, b / 2, i - 1);
    }
  }

  lemma {:induction false} BitBeyond(a: nat, i: nat)
    requires a < Pow2(i)
    ensures BitOf(a, i) == 0
    decreases i
  {
    if i == 0 {
    } else {
      BitBeyond(a / 2, i - 1);
    }
  }

  lemma {:induction false} BitOfOnes(i: nat, k: nat)
    requires i < k
    ensures BitOf(Pow2(k) - 1, i) == 1
    decreases i
  {
    assert (Pow2(k) - 1) / 2 == Pow2(k - 1) - 1;
    if i == 0 {
    } else {
      BitOfOnes(i - 1, k - 1);
    }
  }

  lemma {:induction false} NextByte(c: nat, i: nat)
    requires i >= 8
    ensures BitOf(c, i) == BitOf(c / 256, i - 8)
  {
    hide BitOf;
    NextTwo(c, i);
    NextTwo(c / 4, i - 2);
    NextTwo(c / 16, i - 4);
    NextTwo(c / 64, i - 6);
  }

  lemma {:induction false} NextTwo(c: nat, i: nat)
    requires i >= 2
    ensures BitOf(c, i) == BitOf(c / 4, i - 2)
  {
    assert BitOf(c, i) == BitOf(c / 2, i - 1) == BitOf(c / 2 / 2, i - 2);
  }

  lemma {:induction false} PolyByte3(i: nat)
    requires i < 8
    ensures BitOf(0xED, i) == GeneratorDigit(i + 25)
  {
    assert BitOf(0xED, 0) == 1;
    assert BitOf(0xED, 1) == 0;
    assert BitOf(0xED, 2) == 1;
    assert BitOf(0xED, 3) == 1;
    assert BitOf(0xED, 4) == 0;
    assert BitOf(0xED, 5) == 1;
    assert BitOf(0xED, 6) == 1;
    assert BitOf(0xED, 7) == 1;
  }

  lemma {:induction false} PolyByte2(i: nat)
    requires i < 8
    ensures BitOf(0xEDB8, i) == GeneratorDigit(i + 17)
  {
    assert BitOf(0xEDB8, 0) == 0;
    assert BitOf(0xEDB8, 1) == 0;
    assert BitOf(0xEDB8, 2) == 0;
    assert BitOf(0xEDB8, 3) == 1;
    assert BitOf(0xEDB8, 4) == 1;
    assert BitOf(0xEDB8, 5) == 1;
    assert BitOf(0xEDB8, 6) == 0;
    assert BitOf(0xEDB8, 7) == 1;
  }

  lemma {:induction false} PolyByte1(i: nat)
    requires i < 8
    ensures BitOf(0xEDB883, i) == GeneratorDigit(i + 9)
  {
    assert BitOf(0xEDB883, 0) == 1;
    assert BitOf(0xEDB883, 1) == 1;
    assert BitOf(0xEDB883, 2) == 0;
    assert BitOf(0xEDB883, 3) == 0;
    assert BitOf(0xEDB883, 4) == 0;
    assert BitOf(0xEDB883, 5) == 0;
    assert BitOf(0xEDB883, 6) == 0;
    assert BitOf(0xEDB883, 7) == 1;
  }

  lemma {:induction false} PolyByte0(i: nat)
    requires i < 8
    ensures BitOf(0xEDB88320, i) == GeneratorDigit(i + 1)
  {
    assert BitOf(0xEDB88320, 0) == 0;
    assert BitOf(0xEDB88320, 1) == 0;
    assert BitOf(0xEDB88320, 2) == 0;
    assert BitOf(0xEDB88320, 3) == 0;
    assert BitOf(0xEDB88320, 4) == 0;
    assert BitOf(0xEDB88320, 5) == 1;
    assert BitOf(0xEDB88320, 6) == 0;
    assert BitOf(0xEDB88320, 7) == 0;
  }

  /** The constant of the shift register holds the generator's digits below x^32. */
  lemma {:induction false} PolyDigits(i: nat)
    requires i < 32
    ensures BitOf(POLY, i) == GeneratorDigit(i + 1)
  {
    hide BitOf, GeneratorDigit;
    if i < 8 {
      PolyByte0(i);
    } else if i < 16 {
      NextByte(POLY, i);
      PolyByte1(i - 8);
    } else if i < 24 {
      NextByte(POLY, i);
      NextByte(0xEDB883, i - 8);
      PolyByte2(i - 16);
    } else {
      NextByte(POLY, i);
      NextByte(0xEDB883, i - 8);
      NextByte(0xEDB8, i - 16);
      PolyByte3(i - 24);
    }
  }

  // ---- the register and the division --------------------------------------------------------------------

  /** One digit into the register. */
  function FeedBit(c: word, d: bit): word {
    Shift1(WordXor(c, d))
  }

  ghost function FeedBits(c: word, s: seq<bit>): word
    decreases |s|
  {
    if |s| == 0 then c else FeedBits(FeedBit(c, s[0]), s[1..])
  }

  /** Digits times x^32, with the bits of a word, low bit first, added to the first 32. */
  ghost function Over(s: seq<bit>, c: word): (r: seq<bit>)
    ensures |r| == |s| + 32
  {
    seq(|s| + 32, i requires 0 <= i < |s| + 32 =>
      AddBit(DigitAt(s, i), if i < 32 then BitOf(c, i) else 0))
  }

  /** The bits of the register after one digit. */
  lemma {:induction false} FeedBitDigits(c: word, d: bit, i: nat)
    requires i < 32
    ensures BitOf(FeedBit(c, d), i)
         == AddBit(if i < 31 then BitOf(c, i + 1) else 0, if AddBit(d, c % 2) == 1 then GeneratorDigit(i + 1) else 0)
  {
    var y := WordXor(c, d);
    XorStep(c, d);
    XorZero(c / 2);
    assert y / 2 == c / 2 && y % 2 == AddBit(d, c % 2);
    BitXor(y / 2, if y % 2 == 1 then POLY else 0, i);
    PolyDigits(i);
    ZeroBits(i);
    if i == 31 {
      Pow2Of32();
      assert Pow2(32) == 2 * Pow2(31);
      BitBeyond(c / 2, 31);
    }
    hide Xor;
  }

  lemma {:induction false} ZeroBits(i: nat)
    ensures BitOf(0, i) == 0
  {
    if i == 0 {
    } else {
      ZeroBits(i - 1);
    }
  }

  /** One step of the division takes one digit into the register. */
  lemma {:induction false} DivisionStep(s: seq<bit>, c: word)
    requires |s| > 0
    ensures Subtracted(Over(s, c)) == Over(s[1..], FeedBit(c, s[0]))
  {
    hide FeedBit, BitOf, GeneratorDigit;
    var over, c' := Over(s, c), FeedBit(c, s[0]);
    var l, r := Subtracted(over), Over(s[1..], c');
    assert over[0] == AddBit(s[0], c % 2) by { LowBit(c); }
    forall i | 0 <= i < |l| ensures l[i] == r[i] {
      if i < 32 { FeedBitDigits(c, s[0], i); }
    }
  }

  lemma LowBit(c: nat)
    ensures BitOf(c, 0) == c % 2
  {
  }

  lemma {:induction false} DivisionRuns(s: seq<bit>, c: word)
    ensures Remainder(Over(s, c)) == Over([], FeedBits(c, s))
    decreases |s|
  {
    hide Over, Subtracted, FeedBit;
    if |s| == 0 {
    } else {
      DivisionStep(s, c);
      DivisionRuns(s[1..], FeedBit(c, s[0]));
    }
  }

  // ---- bytes ------------------------------------------------------------------------------------------------

  /** Feeding the low k bits of a number, one by one, is adding it and shifting k times. */
  lemma {:induction false} BitsAtOnce(c: word, b: word, k: nat)
    requires b < Pow2(k)
    ensures FeedBits(c, ByteDigits(b, k)) == Shift(WordXor(c, b), k)
    decreases k
  {
    if k == 0 {
      XorZero(c);
    } else {
      var s, c' := ByteDigits(b, k), FeedBit(c, b % 2);
      assert s[0] == b % 2 && s[1..] == ByteDigits(b / 2, k - 1);
      BitsAtOnce(c', b / 2, k - 1);
      OneAtOnce(c, b);
    }
  }

  lemma {:induction false} OneAtOnce(c: word, b: word)
    ensures Shift1(WordXor(c, b)) == WordXor(FeedBit(c, b % 2), b / 2)
  {
    var p := if AddBit(c % 2, b % 2) == 1 then POLY else 0;
    XorStep(c, b);
    XorStep(c, b % 2);
    XorZero(c / 2);
    assert Shift1(WordXor(c, b)) == Xor(Xor(c / 2, b / 2), p);
    assert FeedBit(c, b % 2) == Xor(c / 2, p);
    hide Xor;
    XorAssoc(c / 2, b / 2, p);
    XorComm(b / 2, p);
    XorAssoc(c / 2, p, b / 2);
  }

  lemma {:induction false} FeedBitsConcat(c: word, s: seq<bit>, t: seq<bit>)
    ensures FeedBits(c, s + t) == FeedBits(FeedBits(c, s), t)
    decreases |s|
  {
    hide FeedBit;
    if |s| == 0 {
      assert s + t == t;
    } else {
      assert (s + t)[1..] == s[1..] + t;
      FeedBitsConcat(FeedBit(c, s[0]), s[1..], t);
    }
  }

  lemma {:induction false} RegisterDigits(c: word, data: seq<byte>)
    ensures Register(c, data) == FeedBits(c, Digits(data))
    decreases |data|
  {
    hide ByteDigits, FeedBits, Shift;
    if |data| == 0 {
      NoDigits(c);
    } else {
      var init, b := data[..|data| - 1], data[|data| - 1];
      RegisterDigits(c, init);
      FeedBitsConcat(c, Digits(init), ByteDigits(b, 8));
      assert Pow2(8) == 256;
      BitsAtOnce(Register(c, init), b, 8);
    }
  }

  lemma NoDigits(c: word)
    ensures FeedBits(c, []) == c
  {
  }

  lemma {:induction false} DividendOver(data: seq<byte>)
    ensures Dividend(data) == Over(Digits(data), ONES)
  {
    hide Digits, BitOf;
    var l, r := Dividend(data), Over(Digits(data), ONES);
    Pow2Of32();
    forall i | 0 <= i < |l| ensures l[i] == r[i] {
      if i < 32 { BitOfOnes(i, 32); }
    }
  }

  /** The checksum is the complement of the remainder, highest power in the lowest bit, of the message
      times x^32, with its first 32 digits inverted, by the IEEE generator polynomial. */
  lemma {:induction false} CrcIsRemainder(data: seq<byte>, i: nat)
    requires i < 32
    ensures BitOf(Crc(data), i) == 1 - Remainder(Dividend(data))[i]
  {
    hide BitOf, Digits, FeedBits, Remainder, Register;
    DividendOver(data);
    DivisionRuns(Digits(data), ONES);
    RegisterDigits(ONES, data);
    var c := Register(ONES, data);
    assert Over([], c)[i] == AddBit(0, BitOf(c, i));
    BitXor(c, ONES, i);
    Pow2Of32();
    BitOfOnes(i, 32);
  }

  // ---- the residue -----------------------------------------------------------------------------------------------

  lemma {:induction false} ByteDigitsSplit(b: nat, j: nat, k: nat, q: nat, r: nat)
    requires b == Pow2(j) * q + r && r < Pow2(j)
    ensures ByteDigits(b, j + k) == ByteDigits(r, j) + ByteDigits(q, k)
    decreases j
  {
    if j == 0 {
    } else {
      HalfSplit(b, Pow2(j - 1), q, r);
      ByteDigitsSplit(b / 2, j - 1, k, q, r / 2);
      FirstDigit(b, j + k);
      FirstDigit(r, j);
      hide ByteDigits;
    }
  }

  lemma FirstDigit(b: nat, k: nat)
    requires k > 0
    ensures ByteDigits(b, k) == [b % 2] + ByteDigits(b / 2, k - 1)
  {
  }

  function Hex(a: nat, b: nat, c: nat, d: nat, e: nat, f: nat, g: nat, h: nat): nat {
    0x1000_0000 * a + 0x100_0000 * b + 0x10_0000 * c + 0x1_0000 * d + 0x1000 * e + 0x100 * f + 0x10 * g + h
  }

  /** One shift of an odd word, by the hexadecimal digits of its half. */
  lemma {:induction false} ShiftOdd(w: word, a: nat, b: nat, c: nat, d: nat, e: nat, f: nat, g: nat, h: nat)
    requires a < 16 && b < 16 && c < 16 && d < 16 && e < 16 && f < 16 && g < 16 && h < 16
    requires w == 2 * Hex(a, b, c, d, e, f, g, h) + 1
    ensures Shift1(w) == Hex(Xor4(a, 0xE), Xor4(b, 0xD), Xor4(c, 0xB), Xor4(d, 8),
                             Xor4(e, 8), Xor4(f, 3), Xor4(g, 2), Xor4(h, 0))
  {
    hide Xor, Xor4;
    assert POLY == Hex(0xE, 0xD, 0xB, 8, 8, 3, 2, 0);
    XorNibble(0, 0, a, 0xE);
    XorZero(0);
    var p2, q2 := 16 * a + b, 0xED;
    XorNibble(a, 0xE, b, 0xD);
    var p3, q3 := 16 * p2 + c, 0xEDB;
    XorNibble(p2, q2, c, 0xB);
    var p4, q4 := 16 * p3 + d, 0xEDB8;
    XorNibble(p3, q3, d, 8);
    var p5, q5 := 16 * p4 + e, 0xEDB88;
    XorNibble(p4, q4, e, 8);
    var p6, q6 := 16 * p5 + f, 0xEDB883;
    XorNibble(p5, q5, f, 3);
    XorNibble(p6, q6, g, 2);
    XorNibble(16 * p6 + g, 0xEDB8832, h, 0);
    assert w / 2 == Hex(a, b, c, d, e, f, g, h) == 16 * (16 * p6 + g) + h;
  }

  lemma {:induction false} ShiftEven(c: word)
    requires c % 2 == 0
    ensures Shift1(c) == c / 2
  {
    XorZero(c / 2);
  }

  lemma {:induction false} TwoShifts(c0: word, c1: word, c2: word)
    requires Shift1(c0) == c1 && Shift1(c1) == c2
    ensures Shift(c0, 2) == c2
  {
    hide Shift1;
    assert Shift(c0, 2) == Shift(c1, 1) == Shift(c2, 0);
  }

  lemma {:induction false} ShiftTwice(c: word, j: nat, k: nat)
    ensures Shift(c, j + k) == Shift(Shift(c, j), k)
    decreases j
  {
    hide Shift1;
    if j == 0 {
    } else {
      ShiftTwice(Shift1(c), j - 1, k);
    }
  }

  lemma {:induction false} Residue0()
    ensures Shift(0xFFFFFFFF, 2) == 0xA49B3D4F
  {
    hide Shift, Shift1;
    assert Shift1(0xFFFFFFFF) == 0x92477CDF by { ShiftOdd(0xFFFFFFFF, 0x7, 0xF, 0xF, 0xF, 0xF, 0xF, 0xF, 0xF); }
    assert Shift1(0x92477CDF) == 0xA49B3D4F by { ShiftOdd(0x92477CDF, 0x4, 0x9, 0x2, 0x3, 0xB, 0xE, 0x6, 0xF); }
    TwoShifts(0xFFFFFFFF, 0x92477CDF, 0xA49B3D4F);
  }

  lemma {:induction false} Residue1()
    ensures Shift(0xA49B3D4F, 2) == 0xB2420DE3
  {
    hide Shift, Shift1;
    assert Shift1(0xA49B3D4F) == 0xBFF51D87 by { ShiftOdd(0xA49B3D4F, 0x5, 0x2, 0x4, 0xD, 0x9, 0xE, 0xA, 0x7); }
    assert Shift1(0xBFF51D87) == 0xB2420DE3 by { ShiftOdd(0xBFF51D87, 0x5, 0xF, 0xF, 0xA, 0x8, 0xE, 0xC, 0x3); }
    TwoShifts(0xA49B3D4F, 0xBFF51D87, 0xB2420DE3);
  }

  lemma {:induction false} Residue2()
    ensures Shift(0xB2420DE3, 2) == 0xB7F441C8
  {
    hide Shift, Shift1;
    assert Shift1(0xB2420DE3) == 0xB49985D1 by { ShiftOdd(0xB2420DE3, 0x5, 0x9, 0x2, 0x1, 0x0, 0x6, 0xF, 0x1); }
    assert Shift1(0xB49985D1) == 0xB7F441C8 by { ShiftOdd(0xB49985D1, 0x5, 0xA, 0x4, 0xC, 0xC, 0x2, 0xE, 0x8); }
    TwoShifts(0xB2420DE3, 0xB49985D1, 0xB7F441C8);
  }

  lemma {:induction false} Residue3()
    ensures Shift(0xB7F441C8, 2) == 0x2DFD1072
  {
    hide Shift, Shift1;
    ShiftEven(0xB7F441C8);
    ShiftEven(0x5BFA20E4);
    TwoShifts(0xB7F441C8, 0x5BFA20E4, 0x2DFD1072);
  }

  lemma {:induction false} Residue4()
    ensures Shift(0x2DFD1072, 2) == 0xE6C7C73C
  {
    hide Shift, Shift1;
    ShiftEven(0x2DFD1072);
    assert Shift1(0x16FE8839) == 0xE6C7C73C by { ShiftOdd(0x16FE8839, 0x0, 0xB, 0x7, 0xF, 0x4, 0x4, 0x1, 0xC); }
    TwoShifts(0x2DFD1072, 0x16FE8839, 0xE6C7C73C);
  }

  lemma {:induction false} Residue5()
    ensures Shift(0xE6C7C73C, 2) == 0x39B1F1CF
  {
    hide Shift, Shift1;
    ShiftEven(0xE6C7C73C);
    ShiftEven(0x7363E39E);
    TwoShifts(0xE6C7C73C, 0x7363E39E, 0x39B1F1CF);
  }

  lemma {:induction false} Residue6()
    ensures Shift(0x39B1F1CF, 2) == 0x9508BEC3
  {
    hide Shift, Shift1;
    assert Shift1(0x39B1F1CF) == 0xF1607BC7 by { ShiftOdd(0x39B1F1CF, 0x1, 0xC, 0xD, 0x8, 0xF, 0x8, 0xE, 0x7); }
    assert Shift1(0xF1607BC7) == 0x9508BEC3 by { ShiftOdd(0xF1607BC7, 0x7, 0x8, 0xB, 0x0, 0x3, 0xD, 0xE, 0x3); }
    TwoShifts(0x39B1F1CF, 0xF1607BC7, 0x9508BEC3);
  }

  lemma {:induction false} Residue7()
    ensures Shift(0x9508BEC3, 2) == 0xBE26ED00
  {
    hide Shift, Shift1;
    assert Shift1(0x9508BEC3) == 0xA73CDC41 by { ShiftOdd(0x9508BEC3, 0x4, 0xA, 0x8, 0x4, 0x5, 0xF, 0x6, 0x1); }
    assert Shift1(0xA73CDC41) == 0xBE26ED00 by { ShiftOdd(0xA73CDC41, 0x5, 0x3, 0x9, 0xE, 0x6, 0xE, 0x2, 0x0); }
    TwoShifts(0x9508BEC3, 0xA73CDC41, 0xBE26ED00);
  }

  lemma {:induction false} Residue8()
    ensures Shift(0xBE26ED00, 2) == 0x2F89BB40
  {
    hide Shift, Shift1;
    ShiftEven(0xBE26ED00);
    ShiftEven(0x5F137680);
    TwoShifts(0xBE26ED00, 0x5F137680, 0x2F89BB40);
  }

  lemma {:induction false} Residue9()
    ensures Shift(0x2F89BB40, 2) == 0xBE26ED0
  {
    hide Shift, Shift1;
    ShiftEven(0x2F89BB40);
    ShiftEven(0x17C4DDA0);
    TwoShifts(0x2F89BB40, 0x17C4DDA0, 0xBE26ED0);
  }

  lemma {:induction false} Residue10()
    ensures Shift(0xBE26ED0, 2) == 0x2F89BB4
  {
    hide Shift, Shift1;
    ShiftEven(0xBE26ED0);
    ShiftEven(0x5F13768);
    TwoShifts(0xBE26ED0, 0x5F13768, 0x2F89BB4);
  }

  lemma {:induction false} Residue11()
    ensures Shift(0x2F89BB4, 2) == 0xBE26ED
  {
    hide Shift, Shift1;
    ShiftEven(0x2F89BB4);
    ShiftEven(0x17C4DDA);
    TwoShifts(0x2F89BB4, 0x17C4DDA, 0xBE26ED);
  }

  lemma {:induction false} Residue12()
    ensures Shift(0xBE26ED, 2) == 0x76F3C82B
  {
    hide Shift, Shift1;
    assert Shift1(0xBE26ED) == 0xEDE79056 by { ShiftOdd(0xBE26ED, 0x0, 0x0, 0x5, 0xF, 0x1, 0x3, 0x7, 0x6); }
    ShiftEven(0xEDE79056);
    TwoShifts(0xBE26ED, 0xEDE79056, 0x76F3C82B);
  }

  lemma {:induction false} Residue13()
    ensures Shift(0x76F3C82B, 2) == 0x86D830BA
  {
    hide Shift, Shift1;
    assert Shift1(0x76F3C82B) == 0xD6C16735 by { ShiftOdd(0x76F3C82B, 0x3, 0xB, 0x7, 0x9, 0xE, 0x4, 0x1, 0x5); }
    assert Shift1(0xD6C16735) == 0x86D830BA by { ShiftOdd(0xD6C16735, 0x6, 0xB, 0x6, 0x0, 0xB, 0x3, 0x9, 0xA); }
    TwoShifts(0x76F3C82B, 0xD6C16735, 0x86D830BA);
  }

  lemma {:induction false} Residue14()
    ensures Shift(0x86D830BA, 2) == 0xCC0E8F0E
  {
    hide Shift, Shift1;
    ShiftEven(0x86D830BA);
    assert Shift1(0x436C185D) == 0xCC0E8F0E by { ShiftOdd(0x436C185D, 0x2, 0x1, 0xB, 0x6, 0x0, 0xC, 0x2, 0xE); }
    TwoShifts(0x86D830BA, 0x436C185D, 0xCC0E8F0E);
  }

  lemma {:induction false} Residue15()
    ensures Shift(0xCC0E8F0E, 2) == 0xDEBB20E3
  {
    hide Shift, Shift1;
    ShiftEven(0xCC0E8F0E);
    assert Shift1(0x66074787) == 0xDEBB20E3 by { ShiftOdd(0x66074787, 0x3, 0x3, 0x0, 0x3, 0xA, 0x3, 0xC, 0x3); }
    TwoShifts(0xCC0E8F0E, 0x66074787, 0xDEBB20E3);
  }

  lemma {:induction false} ShiftedOnes()
    ensures Shift(ONES, 32) == RESIDUE
  {
    hide Shift;
    Residue0();
    Residue1();
    Residue2();
    Residue3();
    Residue4();
    Residue5();
    Residue6();
    Residue7();
    Residue8();
    Residue9();
    Residue10();
    Residue11();
    Residue12();
    Residue13();
    Residue14();
    Residue15();
    ShiftTwice(ONES, 2, 2);
    ShiftTwice(ONES, 4, 2);
    ShiftTwice(ONES, 6, 2);
    ShiftTwice(ONES, 8, 2);
    ShiftTwice(ONES, 10, 2);
    ShiftTwice(ONES, 12, 2);
    ShiftTwice(ONES, 14, 2);
    ShiftTwice(ONES, 16, 2);
    ShiftTwice(ONES, 18, 2);
    ShiftTwice(ONES, 20, 2);
    ShiftTwice(ONES, 22, 2);
    ShiftTwice(ONES, 24, 2);
    ShiftTwice(ONES, 26, 2);
    ShiftTwice(ONES, 28, 2);
    ShiftTwice(ONES, 30, 2);
  }

  const RESIDUE: word := 0xDEBB20E3

  /** The digits of a word sent low byte first are its bits, low bit first. */
  lemma {:induction false} WordDigits(w: word)
    ensures Digits(Le32(w)) == ByteDigits(w, 32)
  {
    hide ByteDigits, Le32;
    FourDigits(Le32(w));
    WordBytes(w);
  }

  lemma {:induction false} FourDigits(s: seq<byte>)
    requires |s| == 4
    ensures Digits(s) == ByteDigits(s[0], 8) + ByteDigits(s[1], 8) + ByteDigits(s[2], 8) + ByteDigits(s[3], 8)
  {
    hide ByteDigits;
    var s1, s2, s3 := s[..1], s[..2], s[..3];
    assert s1[..0] == [] && s2[..1] == s1 && s3[..2] == s2;
    assert Digits(s1) == Digits([]) + ByteDigits(s[0], 8);
    assert Digits(s2) == Digits(s1) + ByteDigits(s[1], 8);
    assert Digits(s3) == Digits(s2) + ByteDigits(s[2], 8);
  }

  lemma {:induction false} WordBytes(w: word)
    ensures var s := Le32(w);
            ByteDigits(w, 32) == ByteDigits(s[0], 8) + ByteDigits(s[1], 8) + ByteDigits(s[2], 8) + ByteDigits(s[3], 8)
  {
    hide ByteDigits;
    var w1, w2, w3 := w / 256, w / 0x1_0000, w / 0x100_0000;
    assert w1 / 256 == w2 && w2 / 256 == w3 && w3 < 256;
    assert Pow2(8) == 256;
    ByteDigitsSplit(w, 8, 24, w1, w % 256);
    ByteDigitsSplit(w1, 8, 16, w2, w1 % 256);
    ByteDigitsSplit(w2, 8, 8, w3, w2 % 256);
  }

  /** Whatever the message, running the register over it and its checksum leaves the same number. */
  lemma {:induction false} ResidueLaw(data: seq<byte>)
    ensures Register(ONES, data + Le32(Crc(data))) == RESIDUE
  {
    hide Xor, Register, Shift, Digits, FeedBits, ByteDigits, Le32;
    var c := Register(ONES, data);
    var w := WordXor(c, ONES);
    RegisterConcat(ONES, data, Le32(w));
    RegisterDigits(c, Le32(w));
    WordDigits(w);
    Pow2Of32();
    BitsAtOnce(c, w, 32);
    XorAssoc(c, c, ONES);
    XorSelf(c);
    XorZero(ONES);
    ShiftedOnes();
  }
}
