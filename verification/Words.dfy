/** Unsigned 32-bit machine words, as numbers below 2^32 with wrap-around written out. */
module Words {
  import opened Division

  const WORD_SIZE := 0x1_0000_0000

  type Word = x: int | 0 <= x < 0x1_0000_0000

  function Add(x: Word, y: Word): Word {
    (x + y) % WORD_SIZE
  }

  function Complement(x: Word): Word {
    0xFFFF_FFFF - x
  }

  function Pow2(n: nat): (p: nat)
    ensures p >= 1
  {
    if n == 0 then 1 else 2 * Pow2(n - 1)
  }

  /** Exclusive or, bit by bit from the lowest. */
  function XorBits(x: nat, y: nat): nat {
    if x == 0 && y == 0 then 0 else (x + y) % 2 + 2 * XorBits(x / 2, y / 2)
  }

  lemma {:induction false} XorBitsBound(x: nat, y: nat, width: nat)
    requires x < Pow2(width) && y < Pow2(width)
    ensures XorBits(x, y) < Pow2(width)
  {
    if x != 0 || y != 0 {
      XorBitsBound(x / 2, y / 2, width - 1);
    }
  }

  lemma {:induction false} XorBitsHalves(x: nat, y: nat)
    ensures XorBits(x, y) % 2 == (x + y) % 2
    ensures XorBits(x, y) / 2 == XorBits(x / 2, y / 2)
  {
    if x != 0 || y != 0 {
      LowAndRest((x + y) % 2, XorBits(x / 2, y / 2));
    }
  }

  lemma LowAndRest(low: nat, rest: nat)
    requires low < 2
    ensures (low + 2 * rest) % 2 == low && (low + 2 * rest) / 2 == rest
  {
  }

  lemma {:induction false} XorBitsTwice(x: nat, y: nat)
    ensures XorBits(XorBits(x, y), y) == x
  {
    if x != 0 || y != 0 {
      XorBitsTwice(x / 2, y / 2);
      var z := XorBits(x, y);
      XorBitsHalves(x, y);
      XorBitsHalves(z, y);
      SameHalves(x, y, z, XorBits(z, y));
    }
  }

  lemma {:induction false} XorZero(x: nat)
    ensures XorBits(x, 0) == x
  {
    if x > 0 {
      XorZero(x / 2);
    }
  }

  lemma SameHalves(x: nat, y: nat, z: nat, w: nat)
    requires z % 2 == (x + y) % 2 && w % 2 == (z + y) % 2 && w / 2 == x / 2
    ensures w == x
  {
  }

  lemma ThirtyTwoBits()
    ensures Pow2(32) == WORD_SIZE
  {
    assert Pow2(8) == 0x100;
    assert Pow2(16) == 0x1_0000;
    assert Pow2(24) == 0x100_0000;
  }

  function Xor(x: Word, y: Word): Word {
    ThirtyTwoBits();
    XorBitsBound(x, y, 32);
    XorBits(x, y)
  }

  /** (x << 24) | (x >> 8): the two halves share no bit, so the disjunction is a sum. */
  function RotateRight8(x: Word): Word {
    x % 0x100 * 0x100_0000 + x / 0x100
  }

  /** (x >> 24) | (x << 8) */
  function RotateLeft8(x: Word): Word {
    x / 0x100_0000 + x % 0x100_0000 * 0x100
  }

  type Byte = x: int | 0 <= x < 0x100

  function XorByte(x: Byte, y: Byte): Byte {
    XorBitsBound(x, y, 8);
    assert Pow2(8) == 0x100;
    XorBits(x, y)
  }

  /** Byte b of a word in memory, the lowest first. */
  function ByteOf(w: Word, b: nat): Byte
    requires b < 4
  {
    match b
    case 0 => w % 0x100
    case 1 => w / 0x100 % 0x100
    case 2 => w / 0x1_0000 % 0x100
    case _ => w / 0x100_0000
  }

  /** A word is made of its bytes. */
  lemma SumOfBytes(w: Word)
    ensures w == ByteOf(w, 0) + 0x100 * ByteOf(w, 1) + 0x1_0000 * ByteOf(w, 2) + 0x100_0000 * ByteOf(w, 3)
  {
    var x := w / 0x100;
    var y := w / 0x1_0000;
    assert x / 0x100 == y && y / 0x100 == w / 0x100_0000;
  }

  /** The upper and the lower bits of a number, divided above the n lowest. */
  function Upper(x: nat, n: nat): nat {
    if n == 0 then x else Upper(x / 2, n - 1)
  }

  function Lower(x: nat, n: nat): nat {
    if n == 0 then 0 else Lower(x / 2, n - 1) * 2 + x % 2
  }

  /** Exclusive or works on the upper and the lower bits apart. */
  lemma {:induction false} XorBitsUpper(x: nat, y: nat, n: nat)
    ensures Upper(XorBits(x, y), n) == XorBits(Upper(x, n), Upper(y, n))
  {
    if n > 0 {
      XorBitsHalves(x, y);
      XorBitsUpper(x / 2, y / 2, n - 1);
    }
  }

  lemma {:induction false} XorBitsLower(x: nat, y: nat, n: nat)
    ensures Lower(XorBits(x, y), n) == XorBits(Lower(x, n), Lower(y, n))
  {
    if n > 0 {
      var z, h, h' := XorBits(x, y), Lower(x / 2, n - 1), Lower(y / 2, n - 1);
      XorBitsHalves(x, y);
      XorBitsLower(x / 2, y / 2, n - 1);
      XorBitsStep(h, x, h', y);
      assert Lower(x, n) == h * 2 + x % 2 && Lower(y, n) == h' * 2 + y % 2;
      assert Lower(z, n) == Lower(z / 2, n - 1) * 2 + z % 2;
    }
  }

  lemma XorBitsStep(h: nat, x: nat, h': nat, y: nat)
    ensures XorBits(h * 2 + x % 2, h' * 2 + y % 2) == XorBits(h, h') * 2 + (x + y) % 2
  {
    var v, w := h * 2 + x % 2, h' * 2 + y % 2;
    assert v / 2 == h && w / 2 == h' && (v + w) % 2 == (x + y) % 2;
  }

  lemma TwoBits(x: nat, n: nat)
    ensures Upper(x, n + 2) == Upper(x / 4, n) && Lower(x, n + 2) == Lower(x / 4, n) * 4 + x % 4
  {
    assert x / 2 / 2 == x / 4 && x / 2 % 2 * 2 + x % 2 == x % 4;
    assert Lower(x, n + 2) == (Lower(x / 2 / 2, n) * 2 + x / 2 % 2) * 2 + x % 2;
  }

  lemma EightBits(x: nat, n: nat)
    requires n == 8
    ensures Upper(x, n) == x / 0x100 && Lower(x, n) == x % 0x100
  {
    TwoBits(x, n - 2);
    TwoBits(x / 4, n - 4);
    TwoBits(x / 4 / 4, n - 6);
    TwoBits(x / 4 / 4 / 4, n - 8);
  }

  /** A number as an upper part and a byte. */
  lemma XorOverByte(x: nat, y: nat, n: nat)
    requires n == 8
    ensures XorBits(x, y) % 0x100 == XorBits(x % 0x100, y % 0x100)
    ensures XorBits(x, y) / 0x100 == XorBits(x / 0x100, y / 0x100)
  {
    EightBits(x, n);
    EightBits(y, n);
    EightBits(XorBits(x, y), n);
    XorBitsUpper(x, y, n);
    XorBitsLower(x, y, n);
  }

  lemma ByteIs(w: Word, b: nat)
    requires b < 4
    ensures ByteOf(w, b) == if b == 0 then w % 0x100 else if b == 1 then w / 0x100 % 0x100
                            else if b == 2 then w / 0x100 / 0x100 % 0x100 else w / 0x100 / 0x100 / 0x100 % 0x100
  {
  }

  /** Exclusive or works byte by byte. */
  lemma XorByBytes(x: Word, y: Word, b: nat)
    requires b < 4
    ensures ByteOf(Xor(x, y), b) == XorByte(ByteOf(x, b), ByteOf(y, b))
  {
    ByteIs(x, b);
    ByteIs(y, b);
    ByteIs(Xor(x, y), b);
    XorOverByte(x, y, 8);
    XorOverByte(x / 0x100, y / 0x100, 8);
    XorOverByte(x / 0x100 / 0x100, y / 0x100 / 0x100, 8);
    XorOverByte(x / 0x100 / 0x100 / 0x100, y / 0x100 / 0x100 / 0x100, 8);
  }

  /** Any four bytes make a word. */
  lemma BytesOfSum(a: Byte, b: Byte, c: Byte, d: Byte)
    ensures var w := a + 0x100 * b + 0x1_0000 * c + 0x100_0000 * d;
            && 0 <= w < WORD_SIZE
            && ByteOf(w, 0) == a && ByteOf(w, 1) == b && ByteOf(w, 2) == c && ByteOf(w, 3) == d
  {
    var w := a + 0x100 * b + 0x1_0000 * c + 0x100_0000 * d;
    assert w / 0x100 == b + 0x100 * c + 0x1_0000 * d;
    assert w / 0x1_0000 == c + 0x100 * d;
  }

  /** The rotations move every byte down or up by one, the last one around. */
  lemma RotateRightByBytes(x: Word, b: nat)
    requires b < 4
    ensures ByteOf(RotateRight8(x), b) == ByteOf(x, (b + 1) % 4)
  {
    SumOfBytes(x);
    BytesOfSum(ByteOf(x, 1), ByteOf(x, 2), ByteOf(x, 3), ByteOf(x, 0));
  }

  lemma RotateLeftByBytes(x: Word, b: nat)
    requires b < 4
    ensures ByteOf(RotateLeft8(x), b) == ByteOf(x, (b + 3) % 4)
  {
    SumOfBytes(x);
    BytesOfSum(ByteOf(x, 3), ByteOf(x, 0), ByteOf(x, 1), ByteOf(x, 2));
  }

  lemma ComplementByBytes(x: Word, b: nat)
    requires b < 4
    ensures ByteOf(Complement(x), b) == 0xFF - ByteOf(x, b)
  {
    SumOfBytes(x);
    BytesOfSum(0xFF - ByteOf(x, 0), 0xFF - ByteOf(x, 1), 0xFF - ByteOf(x, 2), 0xFF - ByteOf(x, 3));
  }
}
