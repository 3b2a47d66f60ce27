/** What the functions and constants of SHA-256 are, bit by bit and as roots of primes (FIPS 180-4, section 4). */
module Sha256Bits {
  import opened Division
  import opened Sha256
  import opened Words

  /** Bit n of a number, counted from the lowest. */
  function Bit(x: nat, n: nat): (b: nat)
    ensures b < 2
  {
    Upper(x, n) % 2
  }

  lemma XorBit(x: nat, y: nat, n: nat)
    ensures Bit(XorBits(x, y), n) == (Bit(x, n) + Bit(y, n)) % 2
  {
    XorBitsUpper(x, y, n);
    LowestXor(Upper(x, n), Upper(y, n), XorBits(Upper(x, n), Upper(y, n)));
  }

  lemma LowestXor(u: nat, v: nat, w: nat)
    requires w == XorBits(u, v)
    ensures w % 2 == (u % 2 + v % 2) % 2
  {
    XorBitsHalves(u, v);
    Parity(u, v);
  }

  lemma Parity(u: nat, v: nat)
    ensures (u + v) % 2 == (u % 2 + v % 2) % 2
  {
  }

  lemma {:induction false} AndHalves(x: nat, y: nat)
    ensures AndBits(x, y) % 2 == (x % 2) * (y % 2)
    ensures AndBits(x, y) / 2 == AndBits(x / 2, y / 2)
  {
    if x != 0 && y != 0 {
      LowAndRest(if x % 2 == 1 && y % 2 == 1 then 1 else 0, AndBits(x / 2, y / 2));
    }
  }

  lemma {:induction false} AndUpper(x: nat, y: nat, n: nat)
    ensures Upper(AndBits(x, y), n) == AndBits(Upper(x, n), Upper(y, n))
  {
    if n > 0 {
      AndHalves(x, y);
      AndUpper(x / 2, y / 2, n - 1);
    }
  }

  lemma AndBit(x: nat, y: nat, n: nat)
    ensures Bit(AndBits(x, y), n) == Bit(x, n) * Bit(y, n)
  {
    AndUpper(x, y, n);
    AndHalves(Upper(x, n), Upper(y, n));
  }

  lemma {:induction false} ComplementUpper(x: nat, width: nat, n: nat)
    requires x < Pow2(width) && n <= width
    ensures Upper(x, n) < Pow2(width - n)
    ensures Upper(Pow2(width) - 1 - x, n) == Pow2(width - n) - 1 - Upper(x, n)
  {
    if n > 0 {
      var p := Pow2(width - 1);
      assert (2 * p - 1 - x) / 2 == p - 1 - x / 2;
      ComplementUpper(x / 2, width - 1, n - 1);
    }
  }

  lemma ComplementBit(x: Word, n: nat)
    requires n < 32
    ensures Bit(Complement(x), n) == 1 - Bit(x, n)
  {
    ThirtyTwoBits();
    ComplementUpper(x, 32, n);
    OddOverEven(Pow2(32 - n), Upper(x, n), 31 - n);
  }

  lemma OddOverEven(p: nat, u: nat, n: nat)
    requires p == Pow2(n + 1) && u < p
    ensures (p - 1 - u) % 2 == 1 - u % 2
  {
    var q, h, b := Pow2(n), u / 2, u % 2;
    var w := q - 1 - h;
    assert p - 1 - u == 2 * w + (1 - b);
    LowestBit(p - 1 - u, w, 1 - b);
  }

  lemma LowestBit(x: nat, h: int, b: nat)
    requires b < 2 && x == 2 * h + b
    ensures x % 2 == b
  {
  }

  /** Each bit of the first word chooses between the two others. */
  lemma ChooseBit(x: Word, y: Word, z: Word, n: nat)
    requires n < 32
    ensures Bit(Ch(x, y, z), n) == if Bit(x, n) == 1 then Bit(y, n) else Bit(z, n)
  {
    XorBit(And(x, y), And(Complement(x), z), n);
    AndBit(x, y, n);
    AndBit(Complement(x), z, n);
    ComplementBit(x, n);
    if Bit(x, n) == 1 {
      assert Bit(And(x, y), n) == Bit(y, n) && Bit(And(Complement(x), z), n) == 0;
    } else {
      assert Bit(And(x, y), n) == 0 && Bit(And(Complement(x), z), n) == Bit(z, n);
    }
  }

  /** Each bit is the one that two of the three words have. */
  lemma MajorityBit(x: Word, y: Word, z: Word, n: nat)
    ensures Bit(Maj(x, y, z), n) == if Bit(x, n) + Bit(y, n) + Bit(z, n) >= 2 then 1 else 0
  {
    XorBit(Xor(And(x, y), And(x, z)), And(y, z), n);
    XorBit(And(x, y), And(x, z), n);
    AndBit(x, y, n);
    AndBit(x, z, n);
    AndBit(y, z, n);
    TwoOfThree(Bit(x, n), Bit(y, n), Bit(z, n));
  }

  lemma TwoOfThree(a: nat, b: nat, c: nat)
    requires a < 2 && b < 2 && c < 2
    ensures ((a * b + a * c) % 2 + b * c) % 2 == if a + b + c >= 2 then 1 else 0
  {
    if a == 0 {
      assert a * b == 0 && a * c == 0;
    } else {
      assert a * b == b && a * c == c;
    }
    assert b * c == if b == 1 then c else 0;
  }

  // ---------------------------------------------------------------------------------------------
  // Rotations and shifts

  lemma HalfFirst(x: nat, p: nat)
    requires p > 0
    ensures x / (2 * p) == x / 2 / p && x % (2 * p) == x / 2 % p * 2 + x % 2
  {
    var q, r := x / 2 / p, x / 2 % p;
    assert x / 2 == p * q + r;
    assert 2 * p * q == 2 * (p * q);
    QuotientUnique(x, 2 * p, q, 2 * r + x % 2);
  }

  lemma {:induction false} UpperIs(x: nat, n: nat, p: nat)
    requires p == Pow2(n)
    ensures Upper(x, n) == x / p && Lower(x, n) == x % p
  {
    if n > 0 {
      UpperIs(x / 2, n - 1, Pow2(n - 1));
      HalfFirst(x, Pow2(n - 1));
    }
  }

  lemma {:induction false} UpperMore(x: nat, m: nat, n: nat)
    ensures Upper(x, m + n) == Upper(Upper(x, m), n)
  {
    if m > 0 {
      UpperMore(x / 2, m - 1, n);
    }
  }

  lemma {:induction false} LowerBit(x: nat, n: nat, i: nat)
    requires i < n
    ensures Bit(Lower(x, n), i) == Bit(x, i)
    decreases n
  {
    var l := Lower(x / 2, n - 1);
    assert (l * 2 + x % 2) / 2 == l;
    if i > 0 {
      LowerBit(x / 2, n - 1, i - 1);
    }
  }

  /** A number below a power of two, and another number times the power on top of it. */
  lemma {:induction false} JoinedBit(low: nat, high: nat, n: nat, i: nat)
    requires low < Pow2(n)
    ensures Bit(low + high * Pow2(n), i) == if i < n then Bit(low, i) else Bit(high, i - n)
    decreases n
  {
    if n > 0 {
      var p := high * Pow2(n - 1);
      assert high * Pow2(n) == 2 * p;
      assert (low + 2 * p) / 2 == low / 2 + p && (low + 2 * p) % 2 == low % 2;
      if i > 0 {
        JoinedBit(low / 2, high, n - 1, i - 1);
      }
    }
  }

  lemma {:induction false} UpperFits(x: nat, n: nat, width: nat)
    requires x < Pow2(width) && n <= width
    ensures Upper(x, n) < Pow2(width - n)
  {
    if n > 0 {
      UpperFits(x / 2, n - 1, width - 1);
    }
  }

  /** The place n bits above a place of a word, around its end. */
  function Around(i: nat, n: nat): (r: nat)
    requires i < 32 && n < 32
    ensures r == (i + n) % 32
  {
    if i + n < 32 then i + n else i + n - 32
  }

  lemma RotatedParts(x: Word, n: nat, p: nat)
    requires p == Pow2(n) && p in POWERS && n < 32 && WORD_SIZE / p == Pow2(32 - n)
    ensures RotRight(x, p) == Upper(x, n) + Lower(x, n) * Pow2(32 - n) && Upper(x, n) < Pow2(32 - n)
  {
    ThirtyTwoBits();
    UpperIs(x, n, p);
    UpperFits(x, n, 32);
  }

  /** A rotation by n bits moves every bit down by n, the lowest ones around. */
  lemma RotateBit(x: Word, n: nat, p: nat, i: nat)
    requires p == Pow2(n) && p in POWERS && n < 32 && WORD_SIZE / p == Pow2(32 - n) && i < 32
    ensures Bit(RotRight(x, p), i) == Bit(x, Around(i, n))
  {
    RotatedParts(x, n, p);
    JoinedBit(Upper(x, n), Lower(x, n), 32 - n, i);
    if i + n < 32 {
      UpperMore(x, n, i);
    } else {
      LowerBit(x, n, i + n - 32);
    }
  }

  lemma SmallPowers()
    ensures Pow2(2) == 0x4 && Pow2(3) == 0x8 && Pow2(6) == 0x40 && Pow2(7) == 0x80
    ensures Pow2(10) == 0x400 && Pow2(11) == 0x800 && Pow2(13) == 0x2000 && Pow2(14) == 0x4000 && Pow2(15) == 0x8000
  {
    assert Pow2(7) == 0x80;
    assert Pow2(10) == 0x400;
    assert Pow2(13) == 0x2000;
  }

  lemma LargePowers()
    ensures Pow2(17) == 0x2_0000 && Pow2(18) == 0x4_0000 && Pow2(19) == 0x8_0000 && Pow2(21) == 0x20_0000
    ensures Pow2(22) == 0x40_0000 && Pow2(25) == 0x200_0000 && Pow2(26) == 0x400_0000 && Pow2(30) == 0x4000_0000
  {
    SmallPowers();
    assert Pow2(17) == 4 * Pow2(15);
    assert Pow2(21) == 4 * Pow2(19);
    assert Pow2(25) == 8 * Pow2(22);
    assert Pow2(30) == 16 * Pow2(26);
  }

  lemma ShiftBit(x: Word, n: nat, p: nat, shifted: Word, i: nat)
    requires p == Pow2(n) && n <= 32 && i < 32 && shifted == x / p
    ensures Bit(shifted, i) == if i + n < 32 then Bit(x, i + n) else 0
  {
    UpperIs(x, n, p);
    UpperMore(x, n, i);
    if i + n >= 32 {
      ThirtyTwoBits();
      NoBitBeyond(x, 32, i + n);
    }
  }

  lemma {:induction false} NoBitBeyond(x: nat, width: nat, i: nat)
    requires x < Pow2(width) && width <= i
    ensures Upper(x, i) == 0
    decreases i
  {
    if i > 0 {
      NoBitBeyond(x / 2, if width > 0 then width - 1 else 0, i - 1);
    }
  }

  /** The sum of three bits, as exclusive or takes it. */
  lemma XorOfThree(x: Word, y: Word, z: Word, i: nat)
    ensures Bit(Xor(Xor(x, y), z), i) == (Bit(x, i) + Bit(y, i) + Bit(z, i)) % 2
  {
    XorBit(Xor(x, y), z, i);
    XorBit(x, y, i);
  }

  lemma BigSigma0Bit(x: Word, i: nat)
    requires i < 32
    ensures Bit(BigSigma0(x), i) == (Bit(x, Around(i, 2)) + Bit(x, Around(i, 13)) + Bit(x, Around(i, 22))) % 2
  {
    SmallPowers();
    LargePowers();
    RotateBit(x, 2, 0x4, i);
    RotateBit(x, 13, 0x2000, i);
    RotateBit(x, 22, 0x40_0000, i);
    XorOfThree(RotRight(x, 0x4), RotRight(x, 0x2000), RotRight(x, 0x40_0000), i);
  }

  lemma BigSigma1Bit(x: Word, i: nat)
    requires i < 32
    ensures Bit(BigSigma1(x), i) == (Bit(x, Around(i, 6)) + Bit(x, Around(i, 11)) + Bit(x, Around(i, 25))) % 2
  {
    SmallPowers();
    LargePowers();
    RotateBit(x, 6, 0x40, i);
    RotateBit(x, 11, 0x800, i);
    RotateBit(x, 25, 0x200_0000, i);
    XorOfThree(RotRight(x, 0x40), RotRight(x, 0x800), RotRight(x, 0x200_0000), i);
  }

  lemma SmallSigma0Bit(x: Word, i: nat)
    requires i < 32
    ensures Bit(SmallSigma0(x), i)
         == (Bit(x, Around(i, 7)) + Bit(x, Around(i, 18)) + if i + 3 < 32 then Bit(x, i + 3) else 0) % 2
  {
    SmallPowers();
    LargePowers();
    RotateBit(x, 7, 0x80, i);
    RotateBit(x, 18, 0x4_0000, i);
    ShiftBit(x, 3, 0x8, x / 0x8, i);
    XorOfThree(RotRight(x, 0x80), RotRight(x, 0x4_0000), x / 0x8, i);
  }

  lemma SmallSigma1Bit(x: Word, i: nat)
    requires i < 32
    ensures Bit(SmallSigma1(x), i)
         == (Bit(x, Around(i, 17)) + Bit(x, Around(i, 19)) + if i + 10 < 32 then Bit(x, i + 10) else 0) % 2
  {
    SmallPowers();
    LargePowers();
    RotateBit(x, 17, 0x2_0000, i);
    RotateBit(x, 19, 0x8_0000, i);
    ShiftBit(x, 10, 0x400, x / 0x400, i);
    XorOfThree(RotRight(x, 0x2_0000), RotRight(x, 0x8_0000), x / 0x400, i);
  }

  // ---------------------------------------------------------------------------------------------
  // Bytes and numbers

  /** The number that bytes stand for, the highest of them first. */
  function ValueOf(bytes: seq<Byte>): nat {
    if bytes == [] then 0 else ValueOf(bytes[..|bytes| - 1]) * 0x100 + bytes[|bytes| - 1]
  }

  lemma EightMore(n: nat)
    ensures Pow2(n + 8) == 0x100 * Pow2(n)
  {
    assert Pow2(n + 2) == 4 * Pow2(n) && Pow2(n + 4) == 4 * Pow2(n + 2);
    assert Pow2(n + 6) == 4 * Pow2(n + 4) && Pow2(n + 8) == 4 * Pow2(n + 6);
  }

  /** The bytes that a length is written in stand for it, and four bytes are read as the word they stand for. */
  lemma {:induction false} BigEndianBack(n: nat, count: nat)
    requires n < Pow2(8 * count)
    ensures ValueOf(BigEndian(n, count)) == n
    decreases count
  {
    if count > 0 {
      EightMore(8 * count - 8);
      BigEndianBack(n / 0x100, count - 1);
      var front := BigEndian(n / 0x100, count - 1);
      assert (front + [n % 0x100])[..count - 1] == front;
    }
  }

  lemma WordIsValue(block: seq<Byte>, j: nat)
    requires j + 4 <= |block|
    ensures WordAt(block, j) == ValueOf(block[j..j + 4])
  {
    var w := block[j..j + 4];
    assert w[..3][..2] == w[..2] && w[..2][..1] == w[..1] && w[..1][..0] == [];
    assert ValueOf(w[..1]) == w[0] && ValueOf(w[..2]) == ValueOf(w[..1]) * 0x100 + w[1];
    assert ValueOf(w[..3]) == ValueOf(w[..2]) * 0x100 + w[2];
  }

  // ---------------------------------------------------------------------------------------------
  // Section 4.2.2 and section 5.3.3 of FIPS 180-4: the constants

  /** The first 32 bits behind the point of the square root of a number, whose whole part is c. */
  predicate IsSquareRoot(n: nat, c: nat, bits: Word) {
    var r := c * 0x1_0000_0000 + bits;
    r * r <= n * 0x1_0000_0000_0000_0000 < (r + 1) * (r + 1)
  }

  /** The same of the cube root. */
  predicate IsCubeRoot(n: nat, c: nat, bits: Word) {
    var r := c * 0x1_0000_0000 + bits;
    r * r * r <= n * 0x1_0000_0000_0000_0000_0000_0000 < (r + 1) * (r + 1) * (r + 1)
  }

  /** The hash value starts with the square roots of the first eight primes. */
  lemma InitialRoots()
    ensures IsSquareRoot(2, 1, INITIAL.a) && IsSquareRoot(3, 1, INITIAL.b)
    ensures IsSquareRoot(5, 2, INITIAL.c) && IsSquareRoot(7, 2, INITIAL.d)
    ensures IsSquareRoot(11, 3, INITIAL.e) && IsSquareRoot(13, 3, INITIAL.f)
    ensures IsSquareRoot(17, 4, INITIAL.g) && IsSquareRoot(19, 4, INITIAL.h)
  {
  }

  /** The constants of the rounds, eight by eight. */
  lemma RoundConstantsInRows()
    ensures |ROUND_CONSTANTS| == 64
    ensures ROUND_CONSTANTS[..8] == CONSTANTS_0 && ROUND_CONSTANTS[8..16] == CONSTANTS_1
    ensures ROUND_CONSTANTS[16..24] == CONSTANTS_2 && ROUND_CONSTANTS[24..32] == CONSTANTS_3
    ensures ROUND_CONSTANTS[32..40] == CONSTANTS_4 && ROUND_CONSTANTS[40..48] == CONSTANTS_5
    ensures ROUND_CONSTANTS[48..56] == CONSTANTS_6 && ROUND_CONSTANTS[56..] == CONSTANTS_7
  {
    var a, b, c := CONSTANTS_0 + CONSTANTS_1, CONSTANTS_2 + CONSTANTS_3, CONSTANTS_4 + CONSTANTS_5;
    assert ROUND_CONSTANTS == a + b + c + CONSTANTS_6 + CONSTANTS_7;
  }

  /** They are the cube roots of the first sixty-four primes. */
  lemma RoundRoots0()
    ensures IsCubeRoot(2, 1, CONSTANTS_0[0]) && IsCubeRoot(3, 1, CONSTANTS_0[1])
    ensures IsCubeRoot(5, 1, CONSTANTS_0[2]) && IsCubeRoot(7, 1, CONSTANTS_0[3])
    ensures IsCubeRoot(11, 2, CONSTANTS_0[4]) && IsCubeRoot(13, 2, CONSTANTS_0[5])
    ensures IsCubeRoot(17, 2, CONSTANTS_0[6]) && IsCubeRoot(19, 2, CONSTANTS_0[7])
  {
  }

  lemma RoundRoots1()
    ensures IsCubeRoot(23, 2, CONSTANTS_1[0]) && IsCubeRoot(29, 3, CONSTANTS_1[1])
    ensures IsCubeRoot(31, 3, CONSTANTS_1[2]) && IsCubeRoot(37, 3, CONSTANTS_1[3])
    ensures IsCubeRoot(41, 3, CONSTANTS_1[4]) && IsCubeRoot(43, 3, CONSTANTS_1[5])
    ensures IsCubeRoot(47, 3, CONSTANTS_1[6]) && IsCubeRoot(53, 3, CONSTANTS_1[7])
  {
  }

  lemma RoundRoots2()
    ensures IsCubeRoot(59, 3, CONSTANTS_2[0]) && IsCubeRoot(61, 3, CONSTANTS_2[1])
    ensures IsCubeRoot(67, 4, CONSTANTS_2[2]) && IsCubeRoot(71, 4, CONSTANTS_2[3])
    ensures IsCubeRoot(73, 4, CONSTANTS_2[4]) && IsCubeRoot(79, 4, CONSTANTS_2[5])
    ensures IsCubeRoot(83, 4, CONSTANTS_2[6]) && IsCubeRoot(89, 4, CONSTANTS_2[7])
  {
  }

  lemma RoundRoots3()
    ensures IsCubeRoot(97, 4, CONSTANTS_3[0]) && IsCubeRoot(101, 4, CONSTANTS_3[1])
    ensures IsCubeRoot(103, 4, CONSTANTS_3[2]) && IsCubeRoot(107, 4, CONSTANTS_3[3])
    ensures IsCubeRoot(109, 4, CONSTANTS_3[4]) && IsCubeRoot(113, 4, CONSTANTS_3[5])
    ensures IsCubeRoot(127, 5, CONSTANTS_3[6]) && IsCubeRoot(131, 5, CONSTANTS_3[7])
  {
  }

  lemma RoundRoots4()
    ensures IsCubeRoot(137, 5, CONSTANTS_4[0]) && IsCubeRoot(139, 5, CONSTANTS_4[1])
    ensures IsCubeRoot(149, 5, CONSTANTS_4[2]) && IsCubeRoot(151, 5, CONSTANTS_4[3])
    ensures IsCubeRoot(157, 5, CONSTANTS_4[4]) && IsCubeRoot(163, 5, CONSTANTS_4[5])
    ensures IsCubeRoot(167, 5, CONSTANTS_4[6]) && IsCubeRoot(173, 5, CONSTANTS_4[7])
  {
  }

  lemma RoundRoots5()
    ensures IsCubeRoot(179, 5, CONSTANTS_5[0]) && IsCubeRoot(181, 5, CONSTANTS_5[1])
    ensures IsCubeRoot(191, 5, CONSTANTS_5[2]) && IsCubeRoot(193, 5, CONSTANTS_5[3])
    ensures IsCubeRoot(197, 5, CONSTANTS_5[4]) && IsCubeRoot(199, 5, CONSTANTS_5[5])
    ensures IsCubeRoot(211, 5, CONSTANTS_5[6]) && IsCubeRoot(223, 6, CONSTANTS_5[7])
  {
  }

  lemma RoundRoots6()
    ensures IsCubeRoot(227, 6, CONSTANTS_6[0]) && IsCubeRoot(229, 6, CONSTANTS_6[1])
    ensures IsCubeRoot(233, 6, CONSTANTS_6[2]) && IsCubeRoot(239, 6, CONSTANTS_6[3])
    ensures IsCubeRoot(241, 6, CONSTANTS_6[4]) && IsCubeRoot(251, 6, CONSTANTS_6[5])
    ensures IsCubeRoot(257, 6, CONSTANTS_6[6]) && IsCubeRoot(263, 6, CONSTANTS_6[7])
  {
  }

  lemma RoundRoots7()
    ensures IsCubeRoot(269, 6, CONSTANTS_7[0]) && IsCubeRoot(271, 6, CONSTANTS_7[1])
    ensures IsCubeRoot(277, 6, CONSTANTS_7[2]) && IsCubeRoot(281, 6, CONSTANTS_7[3])
    ensures IsCubeRoot(283, 6, CONSTANTS_7[4]) && IsCubeRoot(293, 6, CONSTANTS_7[5])
    ensures IsCubeRoot(307, 6, CONSTANTS_7[6]) && IsCubeRoot(311, 6, CONSTANTS_7[7])
  {
  }
}
