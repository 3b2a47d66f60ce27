/** The SHA-256 digest, fed in parts (Utility/Misc/SHA256.cpp), against FIPS 180-4. */
module Sha256 {
  import opened Division
  import opened Words

  // ---------------------------------------------------------------------------------------------
  // Section 4 of FIPS 180-4: functions and constants

  /** Conjunction, bit by bit from the lowest. */
  function AndBits(x: nat, y: nat): (r: nat)
    ensures r <= x
  {
    if x == 0 || y == 0 then 0 else (if x % 2 == 1 && y % 2 == 1 then 1 else 0) + 2 * AndBits(x / 2, y / 2)
  }

  function And(x: Word, y: Word): Word {
    AndBits(x, y)
  }

  lemma NotNegative(a: int, b: int)
    requires a >= 0 && b >= 0
    ensures a * b >= 0
  {
  }

  lemma RotationBound(x: nat, p: nat, q: nat)
    requires p >= 1 && q >= 1 && x < p * q
    ensures 0 <= x / p + x % p * q < p * q
  {
    var h, l := x / p, x % p;
    assert h * p + l == x;
    if h >= q {
      NotNegative(h - q, p);
    }
    NotNegative(p - 1 - l, q);
    NotNegative(l, q);
  }

  /** ROTRIGHT by n bits, with p for 2^n; the two halves share no bit, so the disjunction is a sum. */
  function RotRight(x: Word, p: nat): Word
    requires p in POWERS
  {
    RotationBound(x, p, WORD_SIZE / p);
    x / p + x % p * (WORD_SIZE / p)
  }

  const POWERS: set<nat> := {0x4, 0x40, 0x80, 0x800, 0x2000, 0x2_0000, 0x4_0000, 0x8_0000, 0x40_0000, 0x200_0000}

  function Ch(x: Word, y: Word, z: Word): Word {
    Xor(And(x, y), And(Complement(x), z))
  }

  function Maj(x: Word, y: Word, z: Word): Word {
    Xor(Xor(And(x, y), And(x, z)), And(y, z))
  }

  /** Rotations by 2, 13 and 22 bits. */
  function BigSigma0(x: Word): Word {
    Xor(Xor(RotRight(x, 0x4), RotRight(x, 0x2000)), RotRight(x, 0x40_0000))
  }

  /** Rotations by 6, 11 and 25 bits. */
  function BigSigma1(x: Word): Word {
    Xor(Xor(RotRight(x, 0x40), RotRight(x, 0x800)), RotRight(x, 0x200_0000))
  }

  /** Rotations by 7 and 18 bits, and a shift by 3. */
  function SmallSigma0(x: Word): Word {
    Xor(Xor(RotRight(x, 0x80), RotRight(x, 0x4_0000)), x / 0x8)
  }

  /** Rotations by 17 and 19 bits, and a shift by 10. */
  function SmallSigma1(x: Word): Word {
    Xor(Xor(RotRight(x, 0x2_0000), RotRight(x, 0x8_0000)), x / 0x400)
  }

  const CONSTANTS_0: seq<Word> := [
    0x428a2f98, 0x71374491, 0xb5c0fbcf, 0xe9b5dba5, 0x3956c25b, 0x59f111f1, 0x923f82a4, 0xab1c5ed5]
  const CONSTANTS_1: seq<Word> := [
    0xd807aa98, 0x12835b01, 0x243185be, 0x550c7dc3, 0x72be5d74, 0x80deb1fe, 0x9bdc06a7, 0xc19bf174]
  const CONSTANTS_2: seq<Word> := [
    0xe49b69c1, 0xefbe4786, 0x0fc19dc6, 0x240ca1cc, 0x2de92c6f, 0x4a7484aa, 0x5cb0a9dc, 0x76f988da]
  const CONSTANTS_3: seq<Word> := [
    0x983e5152, 0xa831c66d, 0xb00327c8, 0xbf597fc7, 0xc6e00bf3, 0xd5a79147, 0x06ca6351, 0x14292967]
  const CONSTANTS_4: seq<Word> := [
    0x27b70a85, 0x2e1b2138, 0x4d2c6dfc, 0x53380d13, 0x650a7354, 0x766a0abb, 0x81c2c92e, 0x92722c85]
  const CONSTANTS_5: seq<Word> := [
    0xa2bfe8a1, 0xa81a664b, 0xc24b8b70, 0xc76c51a3, 0xd192e819, 0xd6990624, 0xf40e3585, 0x106aa070]
  const CONSTANTS_6: seq<Word> := [
    0x19a4c116, 0x1e376c08, 0x2748774c, 0x34b0bcb5, 0x391c0cb3, 0x4ed8aa4a, 0x5b9cca4f, 0x682e6ff3]
  const CONSTANTS_7: seq<Word> := [
    0x748f82ee, 0x78a5636f, 0x84c87814, 0x8cc70208, 0x90befffa, 0xa4506ceb, 0xbef9a3f7, 0xc67178f2]

  const ROUND_CONSTANTS: seq<Word> :=
    CONSTANTS_0 + CONSTANTS_1 + CONSTANTS_2 + CONSTANTS_3 + CONSTANTS_4 + CONSTANTS_5 + CONSTANTS_6 + CONSTANTS_7

  datatype Registers =
    Registers(a: Word, b: Word, c: Word, d: Word, e: Word, f: Word, g: Word, h: Word)

  const INITIAL := Registers(0x6a09e667, 0xbb67ae85, 0x3c6ef372, 0xa54ff53a,
                             0x510e527f, 0x9b05688c, 0x1f83d9ab, 0x5be0cd19)

  // ---------------------------------------------------------------------------------------------
  // Section 6.2.2: one block

  function WordAt(block: seq<Byte>, j: nat): Word
    requires j + 4 <= |block|
  {
    var b0: int, b1: int, b2: int, b3: int := block[j], block[j + 1], block[j + 2], block[j + 3];
    b0 * 0x100_0000 + b1 * 0x1_0000 + b2 * 0x100 + b3
  }

  function Extended(w2: Word, w7: Word, w15: Word, w16: Word): Word {
    Add(Add(Add(SmallSigma1(w2), w7), SmallSigma0(w15)), w16)
  }

  /** The word W of round t. */
  function Schedule(block: seq<Byte>, t: nat): Word
    requires |block| == 64
    decreases |block|, t
  {
    if t < 16 then WordAt(block, 4 * t)
    else Extended(Schedule(block, t - 2), Schedule(block, t - 7), Schedule(block, t - 15), Schedule(block, t - 16))
  }

  function Round(r: Registers, k: Word, w: Word): Registers {
    var t1 := Add(Add(Add(Add(r.h, BigSigma1(r.e)), Ch(r.e, r.f, r.g)), k), w);
    var t2 := Add(BigSigma0(r.a), Maj(r.a, r.b, r.c));
    Registers(Add(t1, t2), r.a, r.b, r.c, Add(r.d, t1), r.e, r.f, r.g)
  }

  function Rounds(r: Registers, constants: seq<Word>, block: seq<Byte>, n: nat): Registers
    requires |block| == 64 && n <= |constants|
    decreases |constants|, n
  {
    if n == 0 then r else Round(Rounds(r, constants, block, n - 1), constants[n - 1], Schedule(block, n - 1))
  }

  function Sum(r: Registers, s: Registers): Registers {
    Registers(Add(r.a, s.a), Add(r.b, s.b), Add(r.c, s.c), Add(r.d, s.d),
              Add(r.e, s.e), Add(r.f, s.f), Add(r.g, s.g), Add(r.h, s.h))
  }

  type Block = b: seq<Byte> | |b| == 64 witness seq(64, _ => 0)

  function Compress(r: Registers, constants: seq<Word>, block: Block): Registers
    requires |constants| == 64
  {
    Sum(r, Rounds(r, constants, block, |constants|))
  }

  type Compression = (Registers, Block) -> Registers

  /** The compression with these constants. */
  function CompressWith(constants: seq<Word>): Compression
    requires |constants| == 64
  {
    (r: Registers, block: Block) => Compress(r, constants, block)
  }

  /** A function that is the compression, told only where a compression is mentioned. */
  ghost predicate Compresses(f: Compression, constants: seq<Word>)
    requires |constants| == 64
  {
    forall r, block: Block {:trigger Compress(r, constants, block)} :: f(r, block) == Compress(r, constants, block)
  }

  /** The hash value after a number of whole blocks. */
  function Hashed(f: Compression, r: Registers, data: seq<Byte>): Registers
    requires |data| % 64 == 0
  {
    if data == [] then r
    else
      assert |data| >= 64;
      f(Hashed(f, r, data[..|data| - 64]), data[|data| - 64..])
  }

  lemma HashedSplit(f: Compression, r: Registers, data: seq<Byte>, block: Block)
    requires |data| % 64 == 0
    ensures Hashed(f, r, data + block) == f(Hashed(f, r, data), block)
  {
    assert (data + block)[..|data|] == data && (data + block)[|data|..] == block;
  }

  // ---------------------------------------------------------------------------------------------
  // Section 5.1.1: the padding

  /** The lowest bytes of a number, the highest of them first. */
  function BigEndian(n: nat, count: nat): (r: seq<Byte>)
    ensures |r| == count
    decreases n, count
  {
    if count == 0 then [] else BigEndian(n / 0x100, count - 1) + [n % 0x100]
  }

  lemma BigEndianTwo(n: nat, count: nat)
    ensures BigEndian(n, count + 2) == BigEndian(n / 0x1_0000, count) + [n / 0x100 % 0x100, n % 0x100]
  {
    assert n / 0x1_0000 == n / 0x100 / 0x100;
    assert BigEndian(n, count + 2) == BigEndian(n / 0x100, count + 1) + [n % 0x100];
  }

  lemma BigEndianFour(n: nat, count: nat)
    ensures BigEndian(n, count + 4) == BigEndian(n / 0x1_0000_0000, count)
            + [n / 0x100_0000 % 0x100, n / 0x1_0000 % 0x100, n / 0x100 % 0x100, n % 0x100]
  {
    BigEndianTwo(n, count + 2);
    BigEndianTwo(n / 0x1_0000, count);
    assert n / 0x1_0000 / 0x1_0000 == n / 0x1_0000_0000 && n / 0x1_0000 / 0x100 == n / 0x100_0000;
  }

  lemma BigEndianEight(n: nat)
    ensures BigEndian(n, 8)
         == [n / 0x100_0000_0000_0000 % 0x100, n / 0x1_0000_0000_0000 % 0x100, n / 0x100_0000_0000 % 0x100,
             n / 0x1_0000_0000 % 0x100, n / 0x100_0000 % 0x100, n / 0x1_0000 % 0x100, n / 0x100 % 0x100, n % 0x100]
  {
    var h := n / 0x1_0000_0000;
    BigEndianFour(n, 4);
    BigEndianFour(h, 0);
    assert h / 0x100_0000 == n / 0x100_0000_0000_0000 && h / 0x1_0000 == n / 0x1_0000_0000_0000;
    assert h / 0x100 == n / 0x100_0000_0000;
  }

  function Zeros(n: nat): (r: seq<Byte>)
    ensures |r| == n
  {
    seq(n, _ => 0)
  }

  /** What a 64-bit counter holds. */
  function Wrapped(n: nat): nat {
    n % 0x1_0000_0000_0000_0000
  }

  /** A one bit, the least number of zeros, and the length of the message in bits. */
  function Padding(length: nat): seq<Byte> {
    [0x80] + Zeros((55 - length) % 64) + BigEndian(Wrapped(8 * length), 8)
  }

  lemma PaddingFits(length: nat)
    ensures (length + |Padding(length)|) % 64 == 0
    ensures |Padding(length)| < 64 + 9
  {
    var q, zeros := (55 - length) / 64, (55 - length) % 64;
    assert |Padding(length)| == zeros + 9;
    var all := length + (zeros + 9);
    assert all == 64 * (1 - q);
    SameDivision(64, 1 - q, 0, all / 64, all % 64);
  }

  // ---------------------------------------------------------------------------------------------
  // The digest

  function WordOf(r: Registers, j: nat): Word
    requires j < 8
  {
    match j
    case 0 => r.a
    case 1 => r.b
    case 2 => r.c
    case 3 => r.d
    case 4 => r.e
    case 5 => r.f
    case 6 => r.g
    case _ => r.h
  }

  /** The bytes of the words, each with its highest byte first. */
  function Bytes(r: Registers): (bytes: seq<Byte>)
    ensures |bytes| == 32
  {
    seq(32, n requires 0 <= n < 32 => ByteOf(WordOf(r, n / 4), 3 - n % 4))
  }

  function HexDigit(n: nat): char
    requires n < 16
  {
    "0123456789abcdef"[n]
  }

  function Hex(bytes: seq<Byte>): string {
    if bytes == [] then ""
    else
      var last := bytes[|bytes| - 1];
      Hex(bytes[..|bytes| - 1]) + [HexDigit(last / 16), HexDigit(last % 16)]
  }

  /** Sections 6.2: the digest of a message, in hexadecimal digits. */
  function Digest(constants: seq<Word>, message: seq<Byte>): string
    requires |constants| == 64
  {
    PaddingFits(|message|);
    Hex(Bytes(Hashed(CompressWith(constants), INITIAL, message + Padding(|message|))))
  }

  class SHA256 {
    const k: seq<Word>
    const data: array<Byte>
    var datalen: nat
    var bitlen: nat
    var state: Registers

    /** What Transform does to the state, and the whole blocks that were fed since the last Init. */
    ghost const f: Compression
    ghost var blocks: seq<Byte>

    ghost predicate Fits() {
      |k| == 64 && data.Length == 64 && Compresses(f, k)
    }

    ghost predicate Valid()
      reads this
    {
      && Fits() && datalen < 64
      && |blocks| % 64 == 0
      && bitlen == Wrapped(8 * |blocks|)
      && state == Hashed(f, INITIAL, blocks)
    }

    /** Everything that was fed since the last Init. */
    ghost function Message(): seq<Byte>
      requires Valid()
      reads this, data
    {
      blocks + data[..datalen]
    }

    constructor (constants: seq<Word>)
      requires |constants| == 64
      ensures Valid() && Message() == [] && k == constants && f == CompressWith(constants) && fresh(data)
    {
      k, f := constants, CompressWith(constants);
      data := new Byte[64](_ => 0);
      datalen, bitlen, state, blocks := 0, 0, INITIAL, [];
    }

    method Init()
      requires Fits()
      modifies this
      ensures Valid() && Message() == []
    {
      datalen, bitlen, state, blocks := 0, 0, INITIAL, [];
    }

    /** The body of the loop in Update. */
    method UpdateByte(x: Byte)
      requires Valid()
      modifies this, data
      ensures Valid() && Message() == old(Message()) + [x]
    {
      ghost var tail := data[..datalen];
      data[datalen] := x;
      datalen := datalen + 1;
      assert data[..datalen] == tail + [x];
      assert blocks + (tail + [x]) == (blocks + tail) + [x];
      if datalen == 64 {
        assert data[..] == tail + [x];
        BlockCounted(|blocks|);
        HashedSplit(f, INITIAL, blocks, data[..]);
        BlockFull();
        blocks := blocks + data[..];
        assert blocks + data[..0] == blocks;
      }
    }

    /** A full block: transformed, counted and begun again. */
    method BlockFull()
      requires Fits()
      modifies this`state, this`bitlen, this`datalen
      ensures state == f(old(state), data[..]) && bitlen == Wrapped(old(bitlen) + 512) && datalen == 0
    {
      Transform();
      bitlen := Wrapped(bitlen + 512);
      datalen := 0;
    }

    /** Update; the length is below 2^32, so that the 32-bit counter of the loop reaches it. */
    method Update(bytes: seq<Byte>)
      requires Valid() && |bytes| < WORD_SIZE
      modifies this, data
      ensures Valid() && Message() == old(Message()) + bytes
    {
      ghost var before := Message();
      for i := 0 to |bytes|
        invariant Valid() && Message() == before + bytes[..i]
      {
        OneMoreFed(before, bytes, i);
        UpdateByte(bytes[i]);
      }
      assert bytes[..|bytes|] == bytes;
    }

    /** A byte 0x80 behind the bytes of the last block, and zeros up to a place. */
    method Pad(end: nat)
      requires data.Length == 64 && datalen < end <= 64
      modifies data
      ensures data[..end] == Marked(old(data[..datalen]), end)
    {
      var i := datalen;
      data[i] := 0x80;
      i := i + 1;
      while i < end
        invariant datalen < i <= end
        invariant data[..i] == Marked(old(data[..datalen]), i)
      {
        data[i] := 0;
        i := i + 1;
      }
    }

    /** The length in the last eight bytes of the block. */
    method PutLength()
      requires data.Length == 64
      modifies data
      ensures data[..] == old(data[..56]) + BigEndian(bitlen, 8)
    {
      BigEndianEight(bitlen);
      data[63] := bitlen % 0x100;
      data[62] := bitlen / 0x100 % 0x100;
      data[61] := bitlen / 0x1_0000 % 0x100;
      data[60] := bitlen / 0x100_0000 % 0x100;
      data[59] := bitlen / 0x1_0000_0000 % 0x100;
      data[58] := bitlen / 0x100_0000_0000 % 0x100;
      data[57] := bitlen / 0x1_0000_0000_0000 % 0x100;
      data[56] := bitlen / 0x100_0000_0000_0000 % 0x100;
    }

    /** The block padded to its end, hashed and cleared. */
    method PadWhole()
      requires Fits() && datalen < 64
      modifies this`state, data
      ensures state == f(old(state), Marked(old(data[..datalen]), 64))
      ensures data[..56] == Zeros(56)
    {
      ghost var block := Marked(data[..datalen], 64);
      Pad(64);
      assert data[..] == data[..64] == block;
      Transform();
      Clear();
    }

    /** The padding up to the length, with a block hashed when the length does not fit into it. */
    method PadTail()
      requires Fits() && datalen < 64
      modifies this`state, data
      ensures datalen < 56 ==> state == old(state) && data[..56] == Marked(old(data[..datalen]), 56)
      ensures datalen >= 56 ==> state == f(old(state), Marked(old(data[..datalen]), 64)) && data[..56] == Zeros(56)
    {
      if datalen < 56 {
        Pad(56);
      } else {
        PadWhole();
      }
    }

    method Clear()
      requires data.Length == 64
      modifies data
      ensures data[..56] == Zeros(56)
    {
      forall i | 0 <= i < 56 {
        data[i] := 0;
      }
    }

    /** The last block: the padding, and the length in front of its end. */
    method PadBlock()
      requires Fits() && datalen < 64
      modifies this`state, this`bitlen, data
      ensures var tail := old(data[..datalen]);
              && data[..] == (if datalen < 56 then Marked(tail, 56) else Zeros(56)) + BigEndian(bitlen, 8)
              && state == if datalen < 56 then old(state) else f(old(state), Marked(tail, 64))
      ensures bitlen == Wrapped(old(bitlen) + datalen * 8)
    {
      PadTail();
      bitlen := Wrapped(bitlen + datalen * 8);
      PutLength();
    }

    /** The rest of the message and its padding, hashed. */
    method Finish()
      requires Valid()
      modifies this`state, this`bitlen, data
      ensures old(|Message()| + |Padding(|Message()|)|) % 64 == 0
      ensures state == Hashed(f, INITIAL, old(Message() + Padding(|Message()|)))
    {
      ghost var tail, message := data[..datalen], Message();
      BitsAdded(8 * |blocks|, 8 * datalen);
      PadBlock();
      PaddedHash(f, blocks, tail, if |tail| < 56 then Marked(tail, 56) else Zeros(56), message, data[..]);
      Transform();
    }

    /** Transform: the state after one more block. */
    method Transform()
      requires Fits()
      modifies this`state
      ensures state == f(old(state), data[..])
    {
      state := CompressBlock(state, k, data[..], f);
    }
  }

  /** The beginning of a last block: the end of the message, a byte 0x80, and zeros up to a place. */
  function Marked(tail: seq<Byte>, end: nat): (r: seq<Byte>)
    requires |tail| < end
    ensures |r| == end
  {
    tail + [0x80] + Zeros(end - |tail| - 1)
  }

  /** The last block, or the last two, are the end of the message with its padding. */
  lemma PaddedBlocks(blocks: seq<Byte>, tail: seq<Byte>, front: seq<Byte>, length: seq<Byte>)
    requires |blocks| % 64 == 0 && |tail| < 64
    requires front == if |tail| < 56 then Marked(tail, 56) else Zeros(56)
    requires length == BigEndian(Wrapped(8 * (|blocks| + |tail|)), 8)
    ensures blocks + tail + Padding(|blocks + tail|)
         == (if |tail| < 56 then blocks else blocks + Marked(tail, 64)) + (front + length)
  {
    var n, k := |tail|, (55 - |blocks + tail|) % 64;
    assert Padding(|blocks + tail|) == [0x80] + Zeros(k) + length;
    ZerosNeeded(|blocks|, n);
    if n < 56 {
      Regroup(blocks, tail, Zeros(k), [], length);
    } else {
      assert Zeros(k) == Zeros(63 - n) + Zeros(56);
      Regroup(blocks, tail, Zeros(63 - n), Zeros(56), length);
    }
  }

  lemma ZerosNeeded(whole: nat, rest: nat)
    requires whole % 64 == 0 && rest < 64
    ensures (55 - (whole + rest)) % 64 == if rest < 56 then 55 - rest else 119 - rest
    ensures (whole + 64) % 64 == 0
  {
    var q := whole / 64;
    assert whole == 64 * q;
  }

  lemma Regroup(blocks: seq<Byte>, tail: seq<Byte>, a: seq<Byte>, b: seq<Byte>, length: seq<Byte>)
    ensures blocks + tail + ([0x80] + (a + b) + length) == (blocks + (tail + [0x80] + a)) + (b + length)
    ensures blocks + tail + ([0x80] + a + length) == blocks + ((tail + [0x80] + a) + length)
  {
  }

  /** The hash value after the last block, or the last two. */
  lemma PaddedHash(f: Compression, blocks: seq<Byte>, tail: seq<Byte>, front: seq<Byte>, message: seq<Byte>,
                   last: Block)
    requires |blocks| % 64 == 0 && |tail| < 64 && message == blocks + tail
    requires front == if |tail| < 56 then Marked(tail, 56) else Zeros(56)
    requires last == front + BigEndian(Wrapped(8 * (|blocks| + |tail|)), 8)
    ensures (|message| + |Padding(|message|)|) % 64 == 0
    ensures Hashed(f, INITIAL, message + Padding(|message|))
         == if |tail| < 56 then f(Hashed(f, INITIAL, blocks), last)
            else f(f(Hashed(f, INITIAL, blocks), Marked(tail, 64)), last)
  {
    PaddingFits(|message|);
    PaddedBlocks(blocks, tail, front, BigEndian(Wrapped(8 * (|blocks| + |tail|)), 8));
    if |tail| < 56 {
      HashedSplit(f, INITIAL, blocks, last);
    } else {
      ZerosNeeded(|blocks|, |tail|);
      var more := blocks + Marked(tail, 64);
      assert |more| == |blocks| + 64;
      HashedSplit(f, INITIAL, blocks, Marked(tail, 64));
      HashedSplit(f, INITIAL, more, last);
    }
  }

  lemma OneMoreFed(before: seq<Byte>, bytes: seq<Byte>, i: nat)
    requires i < |bytes|
    ensures (before + bytes[..i]) + [bytes[i]] == before + bytes[..i + 1]
  {
    assert bytes[..i + 1] == bytes[..i] + [bytes[i]];
  }

  /** One more whole block: the counts of bytes and of bits. */
  lemma BlockCounted(n: nat)
    requires n % 64 == 0
    ensures (n + 64) % 64 == 0
    ensures Wrapped(Wrapped(8 * n) + 512) == Wrapped(8 * (n + 64))
  {
    BitsAdded(8 * n, 512);
    RemainderAdded(n, 64, 64);
  }

  lemma BitsAdded(a: nat, b: nat)
    ensures Wrapped(Wrapped(a) + b) == Wrapped(a + b)
  {
    RemainderAdded(a, b, 0x1_0000_0000_0000_0000);
  }

  lemma RemainderAdded(a: nat, b: nat, m: nat)
    requires m > 0
    ensures (a % m + b) % m == (a + b) % m
  {
    var q, q1 := a / m, (a % m + b) / m;
    assert m * q + a % m == a && m * q1 + (a % m + b) % m == a % m + b;
    assert m * (q + q1) == m * q + m * q1;
    SameDivision(m, q + q1, (a % m + b) % m, (a + b) / m, (a + b) % m);
  }

  /** The words of the message schedule. */
  method ScheduleOf(block: seq<Byte>) returns (m: array<Word>)
    requires |block| == 64
    ensures fresh(m) && m.Length == 64 && Scheduled(m[..], block)
  {
    m := new Word[64](_ => 0);
    var j: nat := 0;
    for i := 0 to 16
      invariant j == 4 * i && Scheduled(m[..i], block)
    {
      m[i] := WordAt(block, j);
      ScheduledMore(m[..i], m[i], block);
      assert m[..i + 1] == m[..i] + [m[i]];
      j := j + 4;
    }
    for i := 16 to 64
      invariant Scheduled(m[..i], block)
    {
      m[i] := NextWord(m[..i], block);
      ScheduledMore(m[..i], m[i], block);
      assert m[..i + 1] == m[..i] + [m[i]];
    }
    assert m[..64] == m[..];
  }

  ghost predicate Scheduled(m: seq<Word>, block: seq<Byte>)
    requires |block| == 64
  {
    forall t :: 0 <= t < |m| ==> m[t] == Schedule(block, t)
  }

  lemma ScheduledMore(m: seq<Word>, w: Word, block: seq<Byte>)
    requires |block| == 64 && Scheduled(m, block) && w == Schedule(block, |m|)
    ensures Scheduled(m + [w], block)
  {
  }

  method NextWord(m: seq<Word>, ghost block: seq<Byte>) returns (w: Word)
    requires |block| == 64 && Scheduled(m, block) && |m| >= 16
    ensures w == Schedule(block, |m|)
  {
    var i := |m|;
    w := Add(Add(Add(SmallSigma1(m[i - 2]), m[i - 7]), SmallSigma0(m[i - 15])), m[i - 16]);
  }

  /** The loop over the rounds. */
  method AllRounds(start: Registers, constants: seq<Word>, ghost block: seq<Byte>, m: array<Word>)
    returns (r: Registers)
    requires |block| == |constants| == m.Length == 64 && Scheduled(m[..], block)
    ensures r == Rounds(start, constants, block, |constants|)
  {
    r := start;
    for i := 0 to 64
      invariant r == Rounds(start, constants, block, i)
    {
      r := OneRound(r, constants[i], m[i]);
      RoundsNext(start, constants, block, i, m[i]);
    }
  }

  lemma RoundsNext(start: Registers, constants: seq<Word>, block: seq<Byte>, i: nat, w: Word)
    requires |block| == 64 && i < |constants| && w == Schedule(block, i)
    ensures Rounds(start, constants, block, i + 1) == Round(Rounds(start, constants, block, i), constants[i], w)
  {
  }

  method CompressBlock(r: Registers, constants: seq<Word>, block: Block, ghost f: Compression) returns (next: Registers)
    requires |constants| == 64 && Compresses(f, constants)
    ensures next == f(r, block)
  {
    var m := ScheduleOf(block);
    var rounds := AllRounds(r, constants, block, m);
    next := Sum(r, rounds);
    assert next == Compress(r, constants, block);
  }

  method OneRound(r: Registers, k: Word, w: Word) returns (next: Registers)
    ensures next == Round(r, k, w)
  {
    var Registers(a, b, c, d, e, f, g, h) := r;
    var t1 := Add(Add(Add(Add(h, BigSigma1(e)), Ch(e, f, g)), k), w);
    var t2 := Add(BigSigma0(a), Maj(a, b, c));
    h := g;
    g := f;
    f := e;
    e := Add(d, t1);
    d := c;
    c := b;
    b := a;
    a := Add(t1, t2);
    next := Registers(a, b, c, d, e, f, g, h);
  }

  // ---------------------------------------------------------------------------------------------
  // Whole runs

  /** The hash bytes of the words, as Final copies them, and their hexadecimal digits. */
  method HexOf(r: Registers) returns (text: string)
    ensures text == Hex(Bytes(r))
  {
    var hash := new Byte[32](_ => 0);
    for i := 0 to 4
      invariant forall n :: 0 <= n < 32 && n % 4 < i ==> hash[n] == Bytes(r)[n]
    {
      CopyBytes(r, hash, i);
    }
    text := "";
    for i := 0 to 32
      invariant hash[..] == Bytes(r) && text == Hex(Bytes(r)[..i])
    {
      assert Bytes(r)[..i + 1][..i] == Bytes(r)[..i];
      text := text + [HexDigit(hash[i] / 16), HexDigit(hash[i] % 16)];
    }
    assert Bytes(r)[..32] == Bytes(r);
  }

  lemma ByteOfEach(r: Registers, i: nat)
    requires i < 4
    ensures var bytes, b := Bytes(r), 3 - i;
            && bytes[i] == ByteOf(r.a, b) && bytes[i + 4] == ByteOf(r.b, b) && bytes[i + 8] == ByteOf(r.c, b)
            && bytes[i + 12] == ByteOf(r.d, b) && bytes[i + 16] == ByteOf(r.e, b) && bytes[i + 20] == ByteOf(r.f, b)
            && bytes[i + 24] == ByteOf(r.g, b) && bytes[i + 28] == ByteOf(r.h, b)
  {
  }

  lemma EveryFourth(n: nat, i: nat)
    requires n < 32 && i < 4 && n % 4 == i
    ensures n in {i, i + 4, i + 8, i + 12, i + 16, i + 20, i + 24, i + 28}
  {
  }

  lemma Copied(bytes: seq<Byte>, was: seq<Byte>, i: nat, now: seq<Byte>)
    requires |bytes| == |was| == |now| == 32 && i < 4
    requires now == was[i := bytes[i]][i + 4 := bytes[i + 4]][i + 8 := bytes[i + 8]][i + 12 := bytes[i + 12]]
                    [i + 16 := bytes[i + 16]][i + 20 := bytes[i + 20]][i + 24 := bytes[i + 24]][i + 28 := bytes[i + 28]]
    ensures forall n :: 0 <= n < 32 ==> now[n] == if n % 4 == i then bytes[n] else was[n]
  {
    forall n | 0 <= n < 32
      ensures now[n] == if n % 4 == i then bytes[n] else was[n]
    {
      if n % 4 == i {
        EveryFourth(n, i);
      }
    }
  }

  /** Byte i of every word. */
  method CopyBytes(r: Registers, hash: array<Byte>, i: nat)
    requires i < 4 && hash.Length == 32
    modifies hash
    ensures forall n :: 0 <= n < 32 ==> hash[n] == if n % 4 == i then Bytes(r)[n] else old(hash[n])
  {
    ghost var was := hash[..];
    ByteOfEach(r, i);
    hash[i] := ByteOf(r.a, 3 - i);
    hash[i + 4] := ByteOf(r.b, 3 - i);
    hash[i + 8] := ByteOf(r.c, 3 - i);
    hash[i + 12] := ByteOf(r.d, 3 - i);
    hash[i + 16] := ByteOf(r.e, 3 - i);
    hash[i + 20] := ByteOf(r.f, 3 - i);
    hash[i + 24] := ByteOf(r.g, 3 - i);
    hash[i + 28] := ByteOf(r.h, 3 - i);
    Copied(Bytes(r), was, i, hash[..]);
  }

  /** Init, any number of calls of Update, and Final: the digest of all the parts together. */
  method DigestOf(constants: seq<Word>, parts: seq<seq<Byte>>) returns (text: string)
    requires |constants| == 64
    requires forall i :: 0 <= i < |parts| ==> |parts[i]| < WORD_SIZE
    ensures text == Digest(constants, Joined(parts))
  {
    var sha := new SHA256(constants);
    for i := 0 to |parts|
      invariant sha.Valid() && fresh(sha) && fresh(sha.data) && sha.f == CompressWith(constants)
      invariant sha.Message() == Joined(parts[..i])
    {
      assert parts[..i + 1][..i] == parts[..i];
      sha.Update(parts[i]);
    }
    assert parts[..|parts|] == parts;
    sha.Finish();
    text := HexOf(sha.state);
  }

  /** The same with the constants of section 4.2.2. */
  method Sha256Of(parts: seq<seq<Byte>>) returns (text: string)
    requires forall i :: 0 <= i < |parts| ==> |parts[i]| < WORD_SIZE
    ensures |ROUND_CONSTANTS| == 64 && text == Digest(ROUND_CONSTANTS, Joined(parts))
  {
    text := DigestOf(ROUND_CONSTANTS, parts);
  }

  function Joined(parts: seq<seq<Byte>>): seq<Byte> {
    if parts == [] then [] else Joined(parts[..|parts| - 1]) + parts[|parts| - 1]
  }
}
