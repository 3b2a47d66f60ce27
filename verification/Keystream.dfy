/** The tree keystream of EncryptShared.cpp: seeking a leaf, and walking from leaf to leaf. */
module Keystream {
  import opened Words
  import opened Division
  import opened Tree

  const TABLE_SIZE := 256
  const LEVELS := 16
  const LEAVES := 0x1_0000

  // Slots of the working buffer behind the 256-word table.
  const STACK_A := 256
  const STACK_B := 272
  const STACK_HEAP := 288
  const DEPTH := 304
  const REG_A := 305
  const REG_B := 306
  const REG_HEAP := 307
  const SEED := 308
  const FREE := 309

  datatype Regs = Regs(a: Word, b: Word)

  type Table = t: seq<Word> | |t| == TABLE_SIZE witness seq(TABLE_SIZE, _ => 0)

  function Look(t: Table, x: Word): Word {
    Xor(x, t[x % 0x100])
  }

  function MixRegs(r: Regs, heap: nat): Regs {
    var a := (r.a + heap) % WORD_SIZE;
    var b := Add(r.b, a);
    Regs(Add(a, b), b)
  }

  function LeftRegs(t: Table, r: Regs): Regs {
    Regs(RotateLeft8(Look(t, RotateLeft8(Look(t, r.a)))),
         Look(t, RotateRight8(Look(t, RotateRight8(r.b)))))
  }

  function RightRegs(t: Table, r: Regs): Regs {
    Regs(Look(t, RotateRight8(Look(t, RotateRight8(Complement(r.a))))),
         RotateLeft8(Look(t, RotateLeft8(Look(t, r.b)))))
  }

  /**
   * A mix adds the same word to the second register and on top of it to the first: the sum of the first and the
   * heap index.
   */
  lemma MixAdds(r: Regs, heap: nat)
    ensures var m := MixRegs(r, heap);
            && Add(r.b, (r.a + heap) % WORD_SIZE) == m.b
            && Add(m.b, (r.a + heap) % WORD_SIZE) == m.a
  {
  }

  lemma LookByBytes(t: Table, x: Word, c: nat)
    requires c < 4
    ensures ByteOf(Look(t, x), c) == XorByte(ByteOf(x, c), ByteOf(t[ByteOf(x, 0)], c))
  {
    XorByBytes(x, t[x % 0x100], c);
  }

  /**
   * The bytes of a word that the table is looked up at twice, each time before the bytes go up by one. The
   * first word is the one of the lowest byte, the second the one of what then is the highest.
   */
  ghost predicate WentUp(t: Table, x: Word, y: Word) {
    var i := ByteOf(x, 0);
    var j := XorByte(ByteOf(x, 3), ByteOf(t[i], 3));
    forall c :: 0 <= c < 4 ==>
      ByteOf(y, c) == XorByte(XorByte(ByteOf(x, (c + 2) % 4), ByteOf(t[i], (c + 2) % 4)), ByteOf(t[j], (c + 3) % 4))
  }

  /** The same after the bytes go down by one: the first word is the one of the second byte. */
  ghost predicate WentDown(t: Table, x: Word, y: Word) {
    var i := ByteOf(x, 1);
    var j := XorByte(ByteOf(x, 2), ByteOf(t[i], 1));
    forall c :: 0 <= c < 4 ==>
      ByteOf(y, c) == XorByte(XorByte(ByteOf(x, (c + 2) % 4), ByteOf(t[i], (c + 1) % 4)), ByteOf(t[j], c))
  }

  /** One look-up and the bytes up by one. */
  ghost predicate UpOnce(t: Table, x: Word, y: Word) {
    forall c :: 0 <= c < 4 ==>
      ByteOf(y, c) == XorByte(ByteOf(x, (c + 3) % 4), ByteOf(t[ByteOf(x, 0)], (c + 3) % 4))
  }

  lemma GoesUpOnce(t: Table, x: Word)
    ensures UpOnce(t, x, RotateLeft8(Look(t, x)))
  {
    forall c | 0 <= c < 4
      ensures ByteOf(RotateLeft8(Look(t, x)), c)
           == XorByte(ByteOf(x, (c + 3) % 4), ByteOf(t[ByteOf(x, 0)], (c + 3) % 4))
    {
      RotateLeftByBytes(Look(t, x), c);
      LookByBytes(t, x, (c + 3) % 4);
    }
  }

  lemma TwoPlaces(c: nat, d: nat)
    requires c < 4
    ensures d == (c + 1) % 4 ==> d < 4 && (d + 1) % 4 == (c + 2) % 4
    ensures d == (c + 3) % 4 ==> d < 4 && (d + 3) % 4 == (c + 2) % 4
  {
  }

  lemma UpTwice(t: Table, x: Word, once: Word, y: Word)
    requires UpOnce(t, x, once) && UpOnce(t, once, y)
    ensures WentUp(t, x, y)
  {
    assert ByteOf(once, 0) == XorByte(ByteOf(x, 3), ByteOf(t[ByteOf(x, 0)], 3));
    forall c | 0 <= c < 4
      ensures ByteOf(y, c) == XorByte(XorByte(ByteOf(x, (c + 2) % 4), ByteOf(t[ByteOf(x, 0)], (c + 2) % 4)),
                                      ByteOf(t[ByteOf(once, 0)], (c + 3) % 4))
    {
      TwoPlaces(c, (c + 3) % 4);
    }
  }

  /** The bytes down by one and one look-up. */
  ghost predicate DownOnce(t: Table, x: Word, y: Word) {
    forall c :: 0 <= c < 4 ==> ByteOf(y, c) == XorByte(ByteOf(x, (c + 1) % 4), ByteOf(t[ByteOf(x, 1)], c))
  }

  lemma GoesDownOnce(t: Table, x: Word)
    ensures DownOnce(t, x, Look(t, RotateRight8(x)))
  {
    RotateRightByBytes(x, 0);
    forall c | 0 <= c < 4
      ensures ByteOf(Look(t, RotateRight8(x)), c) == XorByte(ByteOf(x, (c + 1) % 4), ByteOf(t[ByteOf(x, 1)], c))
    {
      RotateRightByBytes(x, c);
      LookByBytes(t, RotateRight8(x), c);
    }
  }

  lemma DownTwice(t: Table, x: Word, once: Word, y: Word)
    requires DownOnce(t, x, once) && DownOnce(t, once, y)
    ensures WentDown(t, x, y)
  {
    assert ByteOf(once, 1) == XorByte(ByteOf(x, 2), ByteOf(t[ByteOf(x, 1)], 1));
    forall c | 0 <= c < 4
      ensures ByteOf(y, c) == XorByte(XorByte(ByteOf(x, (c + 2) % 4), ByteOf(t[ByteOf(x, 1)], (c + 1) % 4)),
                                      ByteOf(t[ByteOf(once, 1)], c))
    {
      TwoPlaces(c, (c + 1) % 4);
    }
  }

  lemma GoesUp(t: Table, x: Word)
    ensures WentUp(t, x, RotateLeft8(Look(t, RotateLeft8(Look(t, x)))))
  {
    var once := RotateLeft8(Look(t, x));
    GoesUpOnce(t, x);
    GoesUpOnce(t, once);
    UpTwice(t, x, once, RotateLeft8(Look(t, once)));
  }

  lemma GoesDown(t: Table, x: Word)
    ensures WentDown(t, x, Look(t, RotateRight8(Look(t, RotateRight8(x)))))
  {
    var once := Look(t, RotateRight8(x));
    GoesDownOnce(t, x);
    GoesDownOnce(t, once);
    DownTwice(t, x, once, Look(t, RotateRight8(once)));
  }

  /**
   * The turns by their bytes. To the left, the first register goes up and the second down; to the right, the
   * complement of the first goes down and the second up.
   */
  lemma TurnsByBytes(t: Table, r: Regs)
    ensures WentUp(t, r.a, LeftRegs(t, r).a) && WentDown(t, r.b, LeftRegs(t, r).b)
    ensures WentDown(t, Complement(r.a), RightRegs(t, r).a) && WentUp(t, r.b, RightRegs(t, r).b)
    ensures forall c :: 0 <= c < 4 ==> ByteOf(Complement(r.a), c) == 0xFF - ByteOf(r.a, c)
  {
    GoesUp(t, r.a);
    GoesDown(t, r.b);
    GoesDown(t, Complement(r.a));
    GoesUp(t, r.b);
    forall c | 0 <= c < 4
      ensures ByteOf(Complement(r.a), c) == 0xFF - ByteOf(r.a, c)
    {
      ComplementByBytes(r.a, c);
    }
  }

  function SwapHalves(x: Word): Word {
    x % 0x1_0000 * 0x1_0000 + x / 0x1_0000
  }

  ghost predicate IsZeros(t: Table) {
    forall i :: 0 <= i < TABLE_SIZE ==> t[i] == 0
  }

  lemma LookAtZeros(t: Table, x: Word)
    requires IsZeros(t)
    ensures Look(t, x) == x
  {
    XorZero(x);
  }

  lemma RotatesSum(x: Word, a: Byte, b: Byte, c: Byte, d: Byte)
    requires x == a + 0x100 * b + 0x1_0000 * c + 0x100_0000 * d
    ensures RotateLeft8(x) == d + 0x100 * a + 0x1_0000 * b + 0x100_0000 * c
    ensures RotateRight8(x) == b + 0x100 * c + 0x1_0000 * d + 0x100_0000 * a
  {
    var low: int, high: int := a + 0x100 * b + 0x1_0000 * c, b + 0x100 * c + 0x1_0000 * d;
    assert x % 0x100_0000 == low && x / 0x100_0000 == d;
    assert x % 0x100 == a && x / 0x100 == high;
  }

  lemma SwapsSum(x: Word, a: Byte, b: Byte, c: Byte, d: Byte)
    requires x == a + 0x100 * b + 0x1_0000 * c + 0x100_0000 * d
    ensures SwapHalves(x) == c + 0x100 * d + 0x1_0000 * a + 0x100_0000 * b
  {
    assert x % 0x1_0000 == a + 0x100 * b && x / 0x1_0000 == c + 0x100 * d;
  }

  lemma RotatesHalf(x: Word)
    ensures RotateLeft8(RotateLeft8(x)) == SwapHalves(x) == RotateRight8(RotateRight8(x))
  {
    SumOfBytes(x);
    RotatesHalfOf(x, ByteOf(x, 0), ByteOf(x, 1), ByteOf(x, 2), ByteOf(x, 3));
  }

  lemma RotatesHalfOf(x: Word, a: Byte, b: Byte, c: Byte, d: Byte)
    requires x == a + 0x100 * b + 0x1_0000 * c + 0x100_0000 * d
    ensures RotateLeft8(RotateLeft8(x)) == SwapHalves(x) == RotateRight8(RotateRight8(x))
  {
    RotatesSum(x, a, b, c, d);
    RotatesSum(RotateLeft8(x), d, a, b, c);
    RotatesSum(RotateRight8(x), b, c, d, a);
    SwapsSum(x, a, b, c, d);
  }

  /**
   * With a table of zeros, a left turn moves both registers by two bytes, a right turn the second one and the
   * complement of the first.
   */
  lemma ZerosTurn(t: Table, r: Regs)
    requires IsZeros(t)
    ensures LeftRegs(t, r) == Regs(SwapHalves(r.a), SwapHalves(r.b))
    ensures RightRegs(t, r) == Regs(SwapHalves(Complement(r.a)), SwapHalves(r.b))
  {
    forall x: Word
      ensures Look(t, x) == x
    {
      LookAtZeros(t, x);
    }
    RotatesHalf(r.a);
    RotatesHalf(r.b);
    RotatesHalf(Complement(r.a));
  }

  function MixRules(t: Table): Rules<Regs> {
    Rules(MixRegs, r => LeftRegs(t, r), r => RightRegs(t, r))
  }

  /** f is the mixing of this table, stated so that a proof sees the mixing only where it asks for it. */
  ghost predicate Follows(f: Rules<Regs>, t: Table) {
    && (forall r, heap {:trigger MixRegs(r, heap)} :: f.mix(r, heap) == MixRegs(r, heap))
    && (forall r {:trigger LeftRegs(t, r)} :: f.left(r) == LeftRegs(t, r))
    && (forall r {:trigger RightRegs(t, r)} :: f.right(r) == RightRegs(t, r))
  }

  lemma MixRulesFollow(t: Table)
    ensures Follows(MixRules(t), t)
  {
  }

  function Root(seed: Word): Node<Regs> {
    Node(Regs(seed, 0), 1)
  }

  /** The words w written over s from position at. */
  function Splice(s: seq<Word>, at: nat, w: seq<Word>): (r: seq<Word>)
    requires at + |w| <= |s|
    ensures |r| == |s|
  {
    s[..at] + w + s[at + |w|..]
  }

  lemma SpliceOne(s: seq<Word>, at: nat, w: seq<Word>, x: Word, now: seq<Word>, next: seq<Word>, p: nat)
    requires at + |w| < |s| && p == at + |w|
    requires now == Splice(s, at, w) && next == now[p := x]
    ensures next == Splice(s, at, w + [x])
  {
    assert s[at + |w|..][0 := x] == [x] + s[at + |w| + 1..];
  }

  lemma SixteenLevels()
    ensures Pow2(LEVELS) == LEAVES && Pow2(LEVELS - 1) == 32768
  {
    assert Pow2(4) == 16;
    assert Pow2(8) == 256;
    assert Pow2(12) == 4096;
  }

  /** The stack slots hold the saved nodes. */
  ghost predicate Holds(buf: seq<Word>, st: seq<Node<Regs>>)
    requires |buf| >= FREE
  {
    && |st| <= LEVELS
    && forall j :: 0 <= j < |st| ==>
        && buf[STACK_A + j] == st[j].regs.a
        && buf[STACK_B + j] == st[j].regs.b
        && buf[STACK_HEAP + j] == st[j].heap
  }

  /**
   * From cur, r levels above the leaves, leaf number rest is the target; the nodes st saved above cur and
   * those saved on the rest of the way make up the target's stack.
   */
  ghost predicate OnTheWay(f: Rules<Regs>, target: Node<Regs>, stack: seq<Node<Regs>>,
                           st: seq<Node<Regs>>, cur: Node<Regs>, rest: nat, r: nat) {
    && rest < Pow2(r)
    && Leaf(f, cur, rest, r) == target
    && st + Saved(f, cur, rest, r) == stack
  }

  lemma OneLevelDown(f: Rules<Regs>, target: Node<Regs>, stack: seq<Node<Regs>>,
                     st: seq<Node<Regs>>, cur: Node<Regs>, rest: nat, r: nat)
    requires OnTheWay(f, target, stack, st, cur, rest, r)
    requires r > 0
    ensures var mixed := Mixed(f, cur);
            if rest < Pow2(r - 1) then OnTheWay(f, target, stack, st + [mixed], Left(f, mixed), rest, r - 1)
            else OnTheWay(f, target, stack, st, Right(f, mixed), rest - Pow2(r - 1), r - 1)
  {
    var mixed := Mixed(f, cur);
    if rest < Pow2(r - 1) {
      var below := Saved(f, Left(f, mixed), rest, r - 1);
      assert st + [mixed] + below == st + ([mixed] + below);
    }
  }

  /** The heap index of a node tells whether it is a leaf. */
  lemma HeapTells(f: Rules<Regs>, target: Node<Regs>, stack: seq<Node<Regs>>,
                  st: seq<Node<Regs>>, cur: Node<Regs>, rest: nat, r: nat)
    requires OnTheWay(f, target, stack, st, cur, rest, r)
    requires LEAVES <= target.heap < 2 * LEAVES
    ensures cur.heap < LEAVES <==> r > 0
    ensures cur.heap < 2 * LEAVES
    ensures r == 0 ==> cur == target && st == stack
    ensures |st| <= |stack|
    ensures r > 0 && rest < Pow2(r - 1) ==> |st| < |stack|
  {
    LeafHeap(f, cur, rest, r);
    assert cur.heap * Pow2(r) + rest == target.heap;
    if r > 0 {
      BelowHalf(cur.heap, Pow2(r - 1));
    }
  }

  /** What a leaf is reached with: its node, and the nodes saved on the way. */
  datatype Stop = Stop(leaf: Node<Regs>, stack: seq<Node<Regs>>)

  ghost predicate GoodStop(stop: Stop) {
    LEAVES <= stop.leaf.heap < 2 * LEAVES && |stop.stack| <= LEVELS
  }

  function StopAt(f: Rules<Regs>, seed: Word, k: nat): Stop
    requires k < Pow2(LEVELS)
  {
    Stop(Leaf(f, Root(seed), k, LEVELS), Saved(f, Root(seed), k, LEVELS))
  }

  /** What the registers of a leaf combine to. */
  function WordOf(stop: Stop): Word {
    Xor(stop.leaf.regs.b, stop.leaf.regs.a)
  }

  lemma WordByBytes(stop: Stop, c: nat)
    requires c < 4
    ensures ByteOf(WordOf(stop), c) == XorByte(ByteOf(stop.leaf.regs.b, c), ByteOf(stop.leaf.regs.a, c))
  {
    XorByBytes(stop.leaf.regs.b, stop.leaf.regs.a, c);
  }

  /** The first mix makes of the seed the word after it, and twice that word. */
  lemma RootMixed(f: Rules<Regs>, t: Table, seed: Word)
    requires Follows(f, t)
    ensures Mixed(f, Root(seed)) == Node(Regs(2 * (seed + 1) % WORD_SIZE, (seed + 1) % WORD_SIZE), 1)
  {
    assert f.mix(Regs(seed, 0), 1) == MixRegs(Regs(seed, 0), 1);
  }

  /** Keystream word k of a table and a seed: the word of leaf k of the tree. */
  function KeyWord(t: Table, seed: Word, k: nat): Word
    requires k < Pow2(LEVELS)
  {
    WordOf(StopAt(MixRules(t), seed, k))
  }

  lemma StopBounds(f: Rules<Regs>, seed: Word, k: nat)
    requires k < LEAVES
    ensures k < Pow2(LEVELS)
    ensures GoodStop(StopAt(f, seed, k))
    ensures StopAt(f, seed, k).leaf.heap == LEAVES + k
    ensures |StopAt(f, seed, k).stack| == ZeroBits(k, LEVELS)
    ensures OnTheWay(f, StopAt(f, seed, k).leaf, StopAt(f, seed, k).stack, [], Root(seed), k, LEVELS)
  {
    SixteenLevels();
    LeafHeap(f, Root(seed), k, LEVELS);
    SavedDepth(f, Root(seed), k, LEVELS);
    assert [] + Saved(f, Root(seed), k, LEVELS) == StopAt(f, seed, k).stack;
  }

  /** Popping after one stop and turning right is on the leftmost way to the next. */
  ghost predicate LeadsTo(f: Rules<Regs>, here: Stop, next: Stop) {
    && here.stack != []
    && var last := |here.stack| - 1;
    && here.stack[last].heap < LEAVES
    && exists r :: OnTheWay(f, next.leaf, next.stack, here.stack[..last], Right(f, here.stack[last]), 0, r)
  }

  lemma StopLeads(f: Rules<Regs>, seed: Word, k: nat)
    requires k + 1 < LEAVES && Pow2(LEVELS) == LEAVES
    ensures LeadsTo(f, StopAt(f, seed, k), StopAt(f, seed, k + 1))
  {
    StopBounds(f, seed, k + 1);
    var r := NextLeaf(f, Root(seed), k, LEVELS);
    var st, next := StopAt(f, seed, k).stack, StopAt(f, seed, k + 1);
    var last := |st| - 1;
    assert OnTheWay(f, next.leaf, next.stack, st[..last], Right(f, st[last]), 0, r);
    HeapTells(f, next.leaf, next.stack, st[..last], Right(f, st[last]), 0, r);
  }

  /** All the stops in order. */
  ghost function Stops(f: Rules<Regs>, seed: Word): (stops: seq<Stop>)
    requires Pow2(LEVELS) == LEAVES
    ensures |stops| == LEAVES
  {
    seq<Stop>(LEAVES, k requires 0 <= k < LEAVES => StopAt(f, seed, k))
  }

  /** What a walk needs to know of its stops. */
  ghost predicate Tour(f: Rules<Regs>, stops: seq<Stop>) {
    && |stops| == LEAVES
    && (forall k {:trigger GoodStop(stops[k])} :: 0 <= k < LEAVES ==> GoodStop(stops[k]))
    && (forall k {:trigger LeadsTo(f, stops[k], stops[k + 1])} ::
          0 <= k < LEAVES - 1 ==> LeadsTo(f, stops[k], stops[k + 1]))
    && stops[LEAVES - 1].stack == []
  }

  lemma StopsTour(f: Rules<Regs>, seed: Word)
    requires Pow2(LEVELS) == LEAVES
    ensures Tour(f, Stops(f, seed))
  {
    var stops := Stops(f, seed);
    forall k | 0 <= k < LEAVES
      ensures GoodStop(stops[k])
    {
      StopBounds(f, seed, k);
    }
    forall k | 0 <= k < LEAVES - 1
      ensures LeadsTo(f, stops[k], stops[k + 1])
    {
      StopLeads(f, seed, k);
    }
    LastLeafSavesNothing(f, Root(seed), LEVELS);
  }

  lemma BelowHalf(h: nat, p: nat)
    requires p >= 1
    ensures 2 * h <= h * (2 * p)
  {
    assert h * 1 <= h * p;
  }

  /** The saved walk state stands on the leftmost way to a stop. */
  ghost predicate Heading(buf: seq<Word>, f: Rules<Regs>, stop: Stop) {
    exists st: seq<Node<Regs>>, cur: Node<Regs>, r: nat ::
      OnTheWay(f, stop.leaf, stop.stack, st, cur, 0, r) && Stored(buf, st, cur)
  }

  /** The saved walk state stands on the leftmost way to leaf k of the tree grown from the seed. */
  ghost predicate InState(buf: seq<Word>, seed: Word, k: nat) {
    && |buf| >= FREE
    && k < Pow2(LEVELS)
    && var f := MixRules(buf[..TABLE_SIZE]);
    && Heading(buf, f, StopAt(f, seed, k))
  }

  ghost predicate Stored(buf: seq<Word>, st: seq<Node<Regs>>, cur: Node<Regs>) {
    && |buf| >= FREE
    && Holds(buf, st)
    && buf[DEPTH] == |st|
    && buf[REG_A] == cur.regs.a
    && buf[REG_B] == cur.regs.b
    && buf[REG_HEAP] == cur.heap
  }

  lemma Halved(k: nat, i: nat, q: nat, rest: nat)
    requires i > 0 && k == 2 * i * q + rest && rest < 2 * i
    ensures k / i == if rest < i then 2 * q else 2 * q + 1
    ensures k % i == if rest < i then rest else rest - i
  {
    var p := i * q;
    assert k == 2 * p + rest;
    assert i * (2 * q) == 2 * p && i * (2 * q + 1) == 2 * p + i;
    if rest < i {
      QuotientUnique(k, i, 2 * q, rest);
    } else {
      QuotientUnique(k, i, 2 * q + 1, rest - i);
    }
  }

  lemma BitTest(k: nat, i: nat)
    requires i > 0
    ensures k / i % 2 == 1 <==> k % (2 * i) >= i
    ensures k / i % 2 == 1 ==> k % i == k % (2 * i) - i
    ensures k / i % 2 == 0 ==> k % i == k % (2 * i)
  {
    Halved(k, i, k / (2 * i), k % (2 * i));
  }

  /** n2 & i, for the mask of level r: whether the leaf lies in the right half of that level. */
  method TestBit(n2: int, i: nat, ghost r: nat) returns (bit: bool)
    requires r > 0 && i == Pow2(r - 1)
    ensures var rest := n2 % LEAVES % Pow2(r);
            && (bit <==> rest >= Pow2(r - 1))
            && n2 % LEAVES % Pow2(r - 1) == if bit then rest - Pow2(r - 1) else rest
    ensures i / 2 == if r == 1 then 0 else Pow2(r - 2)
  {
    BitTest(n2 % LEAVES, i);
    bit := n2 % LEAVES / i % 2 == 1;
  }

  // The register moves of encshare3 after a mix: t2 is the first register, t1 the second, t3 scratch.

  method SeekMix(t1in: Word, t2in: Word, t4: Word, ghost f: Rules<Regs>, ghost t: Table)
    returns (t1: Word, t2: Word)
    requires Follows(f, t)
    ensures Regs(t2, t1) == f.mix(Regs(t2in, t1in), t4)
  {
    t2 := Add(t2in, t4);
    t1 := Add(t1in, t2);
    t2 := Add(t2, t1);
    assert Regs(t2, t1) == MixRegs(Regs(t2in, t1in), t4);
  }

  method SeekRight(data: array<Word>, t1in: Word, t2in: Word, ghost f: Rules<Regs>)
    returns (t1: Word, t2: Word)
    requires data.Length >= TABLE_SIZE && Follows(f, data[..TABLE_SIZE])
    ensures Regs(t2, t1) == f.right(Regs(t2in, t1in))
  {
    t1, t2 := t1in, t2in;
    var t3: Word;
    t2 := Complement(t2);
    t3 := RotateRight8(t2);
    t3 := Xor(t3, data[t3 % 0x100]);
    t1 := Xor(t1, data[t1 % 0x100]);
    t2 := RotateRight8(t3);
    t3 := RotateLeft8(t1);
    t2 := Xor(t2, data[t2 % 0x100]);
    t3 := Xor(t3, data[t3 % 0x100]);
    t1 := RotateLeft8(t3);
    assert Regs(t2, t1) == RightRegs(data[..TABLE_SIZE], Regs(t2in, t1in));
  }

  method SeekLeft(data: array<Word>, t1in: Word, t2in: Word, ghost f: Rules<Regs>)
    returns (t1: Word, t2: Word)
    requires data.Length >= TABLE_SIZE && Follows(f, data[..TABLE_SIZE])
    ensures Regs(t2, t1) == f.left(Regs(t2in, t1in))
  {
    t1, t2 := t1in, t2in;
    var t3: Word;
    t3 := RotateRight8(t1);
    t2 := Xor(t2, data[t2 % 0x100]);
    t3 := Xor(t3, data[t3 % 0x100]);
    t1 := RotateRight8(t3);
    t3 := RotateLeft8(t2);
    t3 := Xor(t3, data[t3 % 0x100]);
    t1 := Xor(t1, data[t1 % 0x100]);
    t2 := RotateLeft8(t3);
    assert Regs(t2, t1) == LeftRegs(data[..TABLE_SIZE], Regs(t2in, t1in));
  }

  method Push(data: array<Word>, a: Word, b: Word, heap: Word, ghost st: seq<Node<Regs>>)
    requires data.Length >= FREE
    requires |st| < LEVELS
    requires Holds(data[..], st) && data[DEPTH] == |st|
    modifies data
    ensures data[..TABLE_SIZE] == old(data[..TABLE_SIZE])
    ensures data[FREE..] == old(data[FREE..])
    ensures Holds(data[..], st + [Node(Regs(a, b), heap)]) && data[DEPTH] == |st| + 1
  {
    data[data[DEPTH] + STACK_A] := a;
    data[data[DEPTH] + STACK_B] := b;
    data[data[DEPTH] + STACK_HEAP] := heap;
    data[DEPTH] := Add(data[DEPTH], 1);
  }

  /** The end of encshare3: the registers, the heap index and the seed go to their slots. */
  method StoreRegs(data: array<Word>, a: Word, b: Word, heap: Word, seed: Word, ghost st: seq<Node<Regs>>)
    requires data.Length >= FREE
    requires Holds(data[..], st) && data[DEPTH] == |st|
    modifies data
    ensures Stored(data[..], st, Node(Regs(a, b), heap))
    ensures data[SEED] == seed
    ensures data[..TABLE_SIZE] == old(data[..TABLE_SIZE])
    ensures data[FREE..] == old(data[FREE..])
  {
    data[REG_A] := a;
    data[REG_B] := b;
    data[REG_HEAP] := heap;
    data[SEED] := seed;
  }

  /** The body of encshare3's loop: one level down, right when the bit is set. */
  method SeekLevel(data: array<Word>, t1in: Word, t2in: Word, t4in: Word, bit: bool,
                   ghost f: Rules<Regs>, ghost target: Node<Regs>, ghost stack: seq<Node<Regs>>,
                   ghost st: seq<Node<Regs>>, ghost cur: Node<Regs>, ghost rest: nat, ghost r: nat)
    returns (t1: Word, t2: Word, t4: Word, ghost st': seq<Node<Regs>>, ghost cur': Node<Regs>)
    requires data.Length >= FREE && Follows(f, data[..TABLE_SIZE])
    requires LEAVES <= target.heap < 2 * LEAVES && |stack| <= LEVELS
    requires OnTheWay(f, target, stack, st, cur, rest, r) && r > 0
    requires bit <==> rest >= Pow2(r - 1)
    requires cur == Node(Regs(t2in, t1in), t4in)
    requires Holds(data[..], st) && data[DEPTH] == |st|
    modifies data
    ensures data[..TABLE_SIZE] == old(data[..TABLE_SIZE])
    ensures data[FREE..] == old(data[FREE..])
    ensures OnTheWay(f, target, stack, st', cur', if bit then rest - Pow2(r - 1) else rest, r - 1)
    ensures cur' == Node(Regs(t2, t1), t4)
    ensures Holds(data[..], st') && data[DEPTH] == |st'|
  {
    HeapTells(f, target, stack, st, cur, rest, r);
    OneLevelDown(f, target, stack, st, cur, rest, r);
    t1, t2 := SeekMix(t1in, t2in, t4in, f, data[..TABLE_SIZE]);
    ghost var mixed := Mixed(f, cur);
    if bit {
      t1, t2 := SeekRight(data, t1, t2, f);
      t4 := Add(Add(t4in, t4in), 1);
      st', cur' := st, Right(f, mixed);
    } else {
      Push(data, t2, t1, t4in, st);
      t1, t2 := SeekLeft(data, t1, t2, f);
      t4 := Add(t4in, t4in);
      st', cur' := st + [mixed], Left(f, mixed);
    }
  }

  /** One turn of encshare3's loop: the mask tells whether to go right. */
  method SeekStep(data: array<Word>, t1in: Word, t2in: Word, t4in: Word, n2: int, i: nat,
                  ghost f: Rules<Regs>, ghost target: Node<Regs>, ghost stack: seq<Node<Regs>>,
                  ghost st: seq<Node<Regs>>, ghost cur: Node<Regs>, ghost rest: nat, ghost r: nat)
    returns (t1: Word, t2: Word, t4: Word, ghost st': seq<Node<Regs>>, ghost cur': Node<Regs>, ghost rest': nat)
    requires data.Length >= FREE && Follows(f, data[..TABLE_SIZE])
    requires LEAVES <= target.heap < 2 * LEAVES && |stack| <= LEVELS
    requires OnTheWay(f, target, stack, st, cur, rest, r) && r > 0
    requires i == Pow2(r - 1) && rest == n2 % LEAVES % Pow2(r)
    requires cur == Node(Regs(t2in, t1in), t4in)
    requires Holds(data[..], st) && data[DEPTH] == |st|
    modifies data
    ensures data[..TABLE_SIZE] == old(data[..TABLE_SIZE])
    ensures data[FREE..] == old(data[FREE..])
    ensures OnTheWay(f, target, stack, st', cur', rest', r - 1)
    ensures rest' == n2 % LEAVES % Pow2(r - 1) && i / 2 == if r == 1 then 0 else Pow2(r - 2)
    ensures cur' == Node(Regs(t2, t1), t4)
    ensures Holds(data[..], st') && data[DEPTH] == |st'|
  {
    var bit := TestBit(n2, i, r);
    t1, t2, t4, st', cur' := SeekLevel(data, t1in, t2in, t4in, bit, f, target, stack, st, cur, rest, r);
    rest' := if bit then rest - Pow2(r - 1) else rest;
  }

  method SeekWith(data: array<Word>, n1: int, n2: int, ghost levels: nat,
                  ghost f: Rules<Regs>, ghost target: Node<Regs>, ghost stack: seq<Node<Regs>>)
    requires data.Length >= FREE && Follows(f, data[..TABLE_SIZE])
    requires LEAVES <= target.heap < 2 * LEAVES && |stack| <= LEVELS
    requires levels > 0 && Pow2(levels) == LEAVES && Pow2(levels - 1) == 32768
    requires OnTheWay(f, target, stack, [], Root(n1 % WORD_SIZE), n2 % LEAVES, levels)
    modifies data
    ensures data[..TABLE_SIZE] == old(data[..TABLE_SIZE])
    ensures data[FREE..] == old(data[FREE..])
    ensures Stored(data[..], stack, target)
    ensures data[SEED] == n1 % WORD_SIZE
  {
    var t2: Word, t1: Word, t4: Word := n1 % WORD_SIZE, 0, 1;
    data[DEPTH] := 0;
    var i := 32768;
    ghost var st: seq<Node<Regs>>, cur, rest, r := [], Root(n1 % WORD_SIZE), n2 % LEAVES, levels;
    while i > 0
      invariant if r == 0 then i == 0 else i == Pow2(r - 1)
      invariant cur == Node(Regs(t2, t1), t4)
      invariant rest == n2 % LEAVES % Pow2(r)
      invariant OnTheWay(f, target, stack, st, cur, rest, r)
      invariant data[..TABLE_SIZE] == old(data[..TABLE_SIZE])
      invariant data[FREE..] == old(data[FREE..])
      invariant Holds(data[..], st) && data[DEPTH] == |st|
      decreases r
    {
      t1, t2, t4, st, cur, rest := SeekStep(data, t1, t2, t4, n2, i, f, target, stack, st, cur, rest, r);
      r := r - 1;
      i := i / 2;
    }
    HeapTells(f, target, stack, st, cur, 0, 0);
    StoreRegs(data, t2, t1, t4, n1 % WORD_SIZE, st);
  }

  /**
   * encshare3: go to leaf n2 (its low 16 bits) of the tree grown from n1, leaving its registers, its heap
   * index and the nodes saved at left turns in the buffer.
   */
  method Seek(data: array<Word>, n1: int, n2: int) returns (ghost seed: Word, ghost k: nat)
    requires data.Length >= FREE
    modifies data
    ensures data[..TABLE_SIZE] == old(data[..TABLE_SIZE])
    ensures data[FREE..] == old(data[FREE..])
    ensures seed == n1 % WORD_SIZE && k == n2 % LEAVES && k < Pow2(LEVELS)
    ensures InState(data[..], seed, k)
    ensures Xor(data[REG_B], data[REG_A]) == KeyWord(data[..TABLE_SIZE], seed, k)
    ensures data[DEPTH] == ZeroBits(k, LEVELS)
    ensures data[REG_HEAP] == LEAVES + k
    ensures data[SEED] == seed
  {
    ghost var f := MixRules(data[..TABLE_SIZE]);
    MixRulesFollow(data[..TABLE_SIZE]);
    seed, k := n1 % WORD_SIZE, n2 % LEAVES;
    SixteenLevels();
    StopBounds(f, seed, k);
    ghost var stop := StopAt(f, seed, k);
    SeekWith(data, n1, n2, LEVELS, f, stop.leaf, stop.stack);
    assert OnTheWay(f, stop.leaf, stop.stack, stop.stack, stop.leaf, 0, 0);
  }

  // encshare2 keeps the first register in t1 and the second in t3; t4 is scratch.

  method WalkLeft(tbuff: array<Word>, t1in: Word, t3in: Word, ghost f: Rules<Regs>)
    returns (t1: Word, t3: Word)
    requires tbuff.Length >= TABLE_SIZE && Follows(f, tbuff[..TABLE_SIZE])
    ensures Regs(t1, t3) == f.left(Regs(t1in, t3in))
  {
    t1, t3 := t1in, t3in;
    var t4 := RotateRight8(t3);
    t1 := Xor(t1, tbuff[t1 % 0x100]);
    t4 := Xor(t4, tbuff[t4 % 0x100]);
    t3 := RotateRight8(t4);
    t4 := RotateLeft8(t1);
    t4 := Xor(t4, tbuff[t4 % 0x100]);
    t3 := Xor(t3, tbuff[t3 % 0x100]);
    t1 := RotateLeft8(t4);
    assert Regs(t1, t3) == LeftRegs(tbuff[..TABLE_SIZE], Regs(t1in, t3in));
  }

  method WalkRight(tbuff: array<Word>, t1in: Word, t5in: Word, ghost f: Rules<Regs>)
    returns (t1: Word, t3: Word)
    requires tbuff.Length >= TABLE_SIZE && Follows(f, tbuff[..TABLE_SIZE])
    ensures Regs(t1, t3) == f.right(Regs(t1in, t5in))
  {
    t1 := t1in;
    var t5 := t5in;
    t1 := Complement(t1);
    t3 := RotateRight8(t1);
    t3 := Xor(t3, tbuff[t3 % 0x100]);
    t5 := Xor(t5, tbuff[t5 % 0x100]);
    t1 := RotateRight8(t3);
    var t4 := RotateLeft8(t5);
    t1 := Xor(t1, tbuff[t1 % 0x100]);
    t4 := Xor(t4, tbuff[t4 % 0x100]);
    t3 := RotateLeft8(t4);
    assert Regs(t1, t3) == RightRegs(tbuff[..TABLE_SIZE], Regs(t1in, t5in));
  }

  /** The mix of encshare2 and what it saves at depth t2 before a left turn. */
  method WalkSave(tbuff: array<Word>, t1in: Word, t2: Word, t3in: Word, t5: Word,
                  ghost f: Rules<Regs>, ghost st: seq<Node<Regs>>)
    returns (t1: Word, t3: Word)
    requires tbuff.Length >= FREE && Follows(f, tbuff[..TABLE_SIZE])
    requires Holds(tbuff[..], st) && t2 == |st| < LEVELS
    modifies tbuff
    ensures tbuff[..TABLE_SIZE] == old(tbuff[..TABLE_SIZE])
    ensures tbuff[SEED..] == old(tbuff[SEED..])
    ensures Regs(t1, t3) == f.mix(Regs(t1in, t3in), t5)
    ensures Holds(tbuff[..], st + [Node(Regs(t1, t3), t5)])
  {
    t1 := Add(t1in, t5);
    t3 := Add(t3in, t1);
    t1 := Add(t1, t3);
    tbuff[t2 + STACK_A] := t1;
    tbuff[t2 + STACK_B] := t3;
    tbuff[t2 + STACK_HEAP] := t5;
    assert Regs(t1, t3) == MixRegs(Regs(t1in, t3in), t5);
  }

  /** The body of encshare2's inner loop: a left turn, one level down. */
  method TurnLeft(tbuff: array<Word>, t1in: Word, t2in: Word, t3in: Word, t5in: Word,
                  ghost f: Rules<Regs>, ghost target: Node<Regs>, ghost stack: seq<Node<Regs>>,
                  ghost st0: seq<Node<Regs>>, ghost r: nat)
    returns (t1: Word, t2: Word, t3: Word, t5: Word, ghost st: seq<Node<Regs>>)
    requires tbuff.Length >= FREE && Follows(f, tbuff[..TABLE_SIZE])
    requires LEAVES <= target.heap < 2 * LEAVES && |stack| <= LEVELS
    requires OnTheWay(f, target, stack, st0, Node(Regs(t1in, t3in), t5in), 0, r)
    requires Holds(tbuff[..], st0) && t2in == |st0| && t5in < LEAVES
    modifies tbuff
    ensures tbuff[..TABLE_SIZE] == old(tbuff[..TABLE_SIZE])
    ensures tbuff[SEED..] == old(tbuff[SEED..])
    ensures r > 0 && OnTheWay(f, target, stack, st, Node(Regs(t1, t3), t5), 0, r - 1)
    ensures Holds(tbuff[..], st) && t2 == |st|
  {
    ghost var cur := Node(Regs(t1in, t3in), t5in);
    HeapTells(f, target, stack, st0, cur, 0, r);
    OneLevelDown(f, target, stack, st0, cur, 0, r);
    t1, t3 := WalkSave(tbuff, t1in, t2in, t3in, t5in, f, st0);
    st := st0 + [Mixed(f, cur)];
    t1, t3 := WalkLeft(tbuff, t1, t3, f);
    t5 := Add(t5in, t5in);
    t2 := Add(t2in, 1);
  }

  /** encshare2's inner loop: turn left and save until the heap index is that of a leaf. */
  method WalkDown(tbuff: array<Word>, t1in: Word, t2in: Word, t3in: Word, t5in: Word,
                  ghost f: Rules<Regs>, ghost target: Node<Regs>, ghost stack: seq<Node<Regs>>,
                  ghost st0: seq<Node<Regs>>, ghost r0: nat)
    returns (t1: Word, t2: Word, t3: Word, t5: Word)
    requires tbuff.Length >= FREE && Follows(f, tbuff[..TABLE_SIZE])
    requires LEAVES <= target.heap < 2 * LEAVES && |stack| <= LEVELS
    requires OnTheWay(f, target, stack, st0, Node(Regs(t1in, t3in), t5in), 0, r0)
    requires Holds(tbuff[..], st0) && t2in == |st0|
    modifies tbuff
    ensures tbuff[..TABLE_SIZE] == old(tbuff[..TABLE_SIZE])
    ensures tbuff[SEED..] == old(tbuff[SEED..])
    ensures target == Node(Regs(t1, t3), t5)
    ensures Holds(tbuff[..], stack) && t2 == |stack|
  {
    t1, t2, t3, t5 := t1in, t2in, t3in, t5in;
    ghost var st, r := st0, r0;
    while t5 < LEAVES
      invariant OnTheWay(f, target, stack, st, Node(Regs(t1, t3), t5), 0, r)
      invariant Holds(tbuff[..], st) && t2 == |st|
      invariant tbuff[..TABLE_SIZE] == old(tbuff[..TABLE_SIZE])
      invariant tbuff[SEED..] == old(tbuff[SEED..])
      decreases r
    {
      t1, t2, t3, t5, st := TurnLeft(tbuff, t1, t2, t3, t5, f, target, stack, st, r);
      r := r - 1;
    }
    HeapTells(f, target, stack, st, Node(Regs(t1, t3), t5), 0, r);
  }

  /** The slot of the node saved last, through wrapping additions. */
  lemma LastSlot(depth: Word, t2: Word, base: nat)
    requires depth <= LEVELS && t2 == (depth - 1) % WORD_SIZE && 1 <= base < FREE
    ensures Add(t2, base) == base + depth - 1
    ensures depth > 0 ==> t2 == depth - 1
  {
  }

  /** encshare2 after a word: pop the node saved last and turn right there. An empty stack wraps around. */
  method WalkUp(tbuff: array<Word>, t2in: Word, ghost f: Rules<Regs>, ghost st: seq<Node<Regs>>)
    returns (t1: Word, t2: Word, t3: Word, t5: Word)
    requires tbuff.Length >= FREE && Follows(f, tbuff[..TABLE_SIZE])
    requires Holds(tbuff[..], st) && t2in == |st|
    requires st != [] ==> st[|st| - 1].heap < LEAVES
    ensures st != [] ==> t2 == |st| - 1 && Node(Regs(t1, t3), t5) == Right(f, st[|st| - 1])
  {
    t2 := (t2in - 1) % WORD_SIZE;
    LastSlot(t2in, t2, STACK_A);
    LastSlot(t2in, t2, STACK_B);
    LastSlot(t2in, t2, STACK_HEAP);
    t1 := tbuff[Add(t2, STACK_A)];
    t5 := tbuff[Add(t2, STACK_B)];
    t1, t3 := WalkRight(tbuff, t1, t5, f);
    t5 := Add(Add(tbuff[Add(t2, STACK_HEAP)], tbuff[Add(t2, STACK_HEAP)]), 1);
  }

  method Emit(tbuff: array<Word>, at: nat, w: Word, ghost st: seq<Node<Regs>>)
    requires FREE <= at < tbuff.Length
    requires Holds(tbuff[..], st)
    modifies tbuff
    ensures tbuff[..TABLE_SIZE] == old(tbuff[..TABLE_SIZE])
    ensures tbuff[SEED..] == old(tbuff[SEED..])[at - SEED := w]
    ensures Holds(tbuff[..], st)
  {
    tbuff[at] := w;
  }

  method SaveWalk(tbuff: array<Word>, t1: Word, t2: Word, t3: Word, t5: Word, ghost st: seq<Node<Regs>>)
    requires tbuff.Length >= FREE
    modifies tbuff
    ensures tbuff[..TABLE_SIZE] == old(tbuff[..TABLE_SIZE])
    ensures tbuff[SEED..] == old(tbuff[SEED..])
    ensures old(Holds(tbuff[..], st)) && t2 == |st| ==> Stored(tbuff[..], st, Node(Regs(t1, t3), t5))
  {
    tbuff[DEPTH] := t2;
    tbuff[REG_A] := t1;
    tbuff[REG_B] := t3;
    tbuff[REG_HEAP] := t5;
  }

  /** One round of encshare2's outer loop: down to the leaf, write its word, and up again. */
  method WalkOne(tbuff: array<Word>, at: nat, t1in: Word, t2in: Word, t3in: Word, t5in: Word,
                 ghost f: Rules<Regs>, ghost target: Node<Regs>, ghost stack: seq<Node<Regs>>,
                 ghost st: seq<Node<Regs>>, ghost r: nat)
    returns (t1: Word, t2: Word, t3: Word, t5: Word)
    requires FREE <= at < tbuff.Length && Follows(f, tbuff[..TABLE_SIZE])
    requires LEAVES <= target.heap < 2 * LEAVES && |stack| <= LEVELS
    requires stack != [] ==> stack[|stack| - 1].heap < LEAVES
    requires OnTheWay(f, target, stack, st, Node(Regs(t1in, t3in), t5in), 0, r)
    requires Holds(tbuff[..], st) && t2in == |st|
    modifies tbuff
    ensures tbuff[..TABLE_SIZE] == old(tbuff[..TABLE_SIZE])
    ensures tbuff[SEED..] == old(tbuff[SEED..])[at - SEED := Xor(target.regs.b, target.regs.a)]
    ensures stack != [] ==>
              var last := |stack| - 1;
              && Node(Regs(t1, t3), t5) == Right(f, stack[last])
              && Holds(tbuff[..], stack[..last])
              && t2 == last
  {
    t1, t2, t3, t5 := WalkDown(tbuff, t1in, t2in, t3in, t5in, f, target, stack, st, r);
    Emit(tbuff, at, Xor(t3, t1), stack);
    t1, t2, t3, t5 := WalkUp(tbuff, t2, f, stack);
  }

  /** Whether a node with its saved ones, r levels above the leaves, is on the leftmost way to stop k. */
  type Way = (nat, Node<Regs>, seq<Node<Regs>>, nat) -> bool

  /** way tells just that, stated so that a proof sees the nodes only where it asks for them. */
  ghost predicate Ways(way: Way, f: Rules<Regs>, stops: seq<Stop>) {
    && |stops| == LEAVES
    && forall k, cur, st, r {:trigger OnTheWay(f, stops[k].leaf, stops[k].stack, st, cur, 0, r)} ::
         0 <= k < LEAVES ==> (way(k, cur, st, r) <==> OnTheWay(f, stops[k].leaf, stops[k].stack, st, cur, 0, r))
  }

  ghost function WaysOf(f: Rules<Regs>, stops: seq<Stop>): (way: Way)
    requires |stops| == LEAVES
    ensures Ways(way, f, stops)
  {
    (k: nat, cur, st, r: nat) => k < LEAVES && OnTheWay(f, stops[k].leaf, stops[k].stack, st, cur, 0, r)
  }

  /** encshare2's registers stand for a node on the leftmost way to stop k, if there is one. */
  ghost predicate Walking(buf: seq<Word>, way: Way, k: nat, t1: Word, t2: Word, t3: Word, t5: Word,
                          st: seq<Node<Regs>>, r: nat)
    requires |buf| >= FREE
  {
    k < LEAVES ==> way(k, Node(Regs(t1, t3), t5), st, r) && Holds(buf, st) && t2 == |st|
  }

  /** The same round on a tour, leaving the walk heading for the next stop. */
  method WalkLeaf(tbuff: array<Word>, at: nat, t1in: Word, t2in: Word, t3in: Word, t5in: Word,
                  ghost f: Rules<Regs>, ghost stops: seq<Stop>, ghost way: Way, ghost k: nat,
                  ghost st: seq<Node<Regs>>, ghost r: nat)
    returns (t1: Word, t2: Word, t3: Word, t5: Word, ghost st': seq<Node<Regs>>, ghost r': nat)
    requires FREE <= at < tbuff.Length && Follows(f, tbuff[..TABLE_SIZE])
    requires Tour(f, stops) && Ways(way, f, stops) && k < LEAVES
    requires Walking(tbuff[..], way, k, t1in, t2in, t3in, t5in, st, r)
    modifies tbuff
    ensures tbuff[..TABLE_SIZE] == old(tbuff[..TABLE_SIZE])
    ensures tbuff[SEED..] == old(tbuff[SEED..])[at - SEED := WordOf(stops[k])]
    ensures Walking(tbuff[..], way, k + 1, t1, t2, t3, t5, st', r')
  {
    ghost var leaf, stack := stops[k].leaf, stops[k].stack;
    assert GoodStop(stops[k]) && OnTheWay(f, leaf, stack, st, Node(Regs(t1in, t3in), t5in), 0, r);
    st', r' := [], 0;
    if k + 1 < LEAVES {
      assert LeadsTo(f, stops[k], stops[k + 1]);
      st' := stack[..|stack| - 1];
      r' :| OnTheWay(f, stops[k + 1].leaf, stops[k + 1].stack, st', Right(f, stack[|stack| - 1]), 0, r');
    }
    t1, t2, t3, t5 := WalkOne(tbuff, at, t1in, t2in, t3in, t5in, f, leaf, stack, st, r);
  }

  /** words are those of the stops from stop k on. */
  ghost predicate AreWords(stops: seq<Stop>, k: nat, words: seq<Word>) {
    && k + |words| <= |stops|
    && forall i :: 0 <= i < |words| ==> words[i] == WordOf(stops[k + i])
  }

  lemma OneMoreWord(stops: seq<Stop>, k: nat, words: seq<Word>)
    requires AreWords(stops, k, words) && k + |words| < |stops|
    ensures AreWords(stops, k, words + [WordOf(stops[k + |words|])])
  {
  }

  /** What encshare2's outer loop has done: the words of the stops from k on stand at a place of the tail. */
  ghost predicate Written(now: seq<Word>, tail: seq<Word>, at: nat, stops: seq<Stop>, k: nat, words: seq<Word>) {
    && at + |words| <= |tail| && now == Splice(tail, at, words)
    && AreWords(stops, k, words)
  }

  lemma OneMoreWritten(now: seq<Word>, tail: seq<Word>, at: nat, stops: seq<Stop>, k: nat, words: seq<Word>, p: nat,
                       j: nat)
    requires Written(now, tail, at, stops, k, words)
    requires p == at + |words| < |tail| && j == k + |words| < |stops|
    ensures |now| == |tail|
    ensures Written(now[p := WordOf(stops[j])], tail, at, stops, k, words + [WordOf(stops[j])])
  {
    SpliceOne(tail, at, words, WordOf(stops[j]), now, now[p := WordOf(stops[j])], p);
    OneMoreWord(stops, k, words);
  }

  /** One word more of encshare2's outer loop. */
  method WalkNext(tbuff: array<Word>, out: nat, j: nat, t1in: Word, t2in: Word, t3in: Word, t5in: Word,
                  ghost f: Rules<Regs>, ghost stops: seq<Stop>, ghost way: Way, ghost k: nat,
                  ghost st0: seq<Node<Regs>>, ghost r0: nat, ghost tail: seq<Word>, ghost words: seq<Word>)
    returns (t1: Word, t2: Word, t3: Word, t5: Word, ghost st: seq<Node<Regs>>, ghost r: nat, ghost more: seq<Word>)
    requires FREE <= out && out + j < tbuff.Length && Follows(f, tbuff[..TABLE_SIZE])
    requires Tour(f, stops) && Ways(way, f, stops) && k + j < LEAVES
    requires Walking(tbuff[..], way, k + j, t1in, t2in, t3in, t5in, st0, r0)
    requires |words| == j && Written(tbuff[SEED..], tail, out - SEED, stops, k, words)
    modifies tbuff
    ensures tbuff[..TABLE_SIZE] == old(tbuff[..TABLE_SIZE])
    ensures |more| == j + 1 && Written(tbuff[SEED..], tail, out - SEED, stops, k, more)
    ensures Walking(tbuff[..], way, k + (j + 1), t1, t2, t3, t5, st, r)
  {
    ghost var now, at := tbuff[SEED..], out - SEED;
    OneMoreWritten(now, tail, at, stops, k, words, at + j, k + j);
    t1, t2, t3, t5, st, r := WalkLeaf(tbuff, out + j, t1in, t2in, t3in, t5in, f, stops, way, k + j, st0, r0);
    assert tbuff[SEED..] == now[at + j := WordOf(stops[k + j])];
    more := words + [WordOf(stops[k + j])];
  }

  /** encshare2's outer loop. */
  method WalkWords(tbuff: array<Word>, out: nat, len: nat, t1in: Word, t2in: Word, t3in: Word, t5in: Word,
                   ghost f: Rules<Regs>, ghost stops: seq<Stop>, ghost way: Way, ghost k: nat,
                   ghost st0: seq<Node<Regs>>, ghost r0: nat)
    returns (t1: Word, t2: Word, t3: Word, t5: Word, ghost st: seq<Node<Regs>>, ghost r: nat, ghost words: seq<Word>)
    requires FREE <= out && out + len <= tbuff.Length && Follows(f, tbuff[..TABLE_SIZE])
    requires Tour(f, stops) && Ways(way, f, stops) && k + len <= LEAVES
    requires Walking(tbuff[..], way, k, t1in, t2in, t3in, t5in, st0, r0)
    modifies tbuff
    ensures tbuff[..TABLE_SIZE] == old(tbuff[..TABLE_SIZE])
    ensures |words| == len && Written(tbuff[SEED..], old(tbuff[SEED..]), out - SEED, stops, k, words)
    ensures Walking(tbuff[..], way, k + len, t1, t2, t3, t5, st, r)
  {
    t1, t2, t3, t5, st, r := t1in, t2in, t3in, t5in, st0, r0;
    var j := 0;
    ghost var tail := tbuff[SEED..];
    words := [];
    assert Splice(tail, out - SEED, []) == tail;
    while j < len
      invariant j <= len && |words| == j
      invariant tbuff[..TABLE_SIZE] == old(tbuff[..TABLE_SIZE])
      invariant Written(tbuff[SEED..], tail, out - SEED, stops, k, words)
      invariant Walking(tbuff[..], way, k + j, t1, t2, t3, t5, st, r)
    {
      t1, t2, t3, t5, st, r, words :=
        WalkNext(tbuff, out, j, t1, t2, t3, t5, f, stops, way, k, st, r, tail, words);
      j := j + 1;
    }
  }

  method WalkTour(tbuff: array<Word>, out: nat, len: nat, ghost f: Rules<Regs>, ghost stops: seq<Stop>, ghost k: nat)
    returns (ghost words: seq<Word>)
    requires FREE <= out && out + len <= tbuff.Length && Follows(f, tbuff[..TABLE_SIZE])
    requires Tour(f, stops) && k < LEAVES && k + len <= LEAVES
    requires Heading(tbuff[..], f, stops[k])
    modifies tbuff
    ensures tbuff[..TABLE_SIZE] == old(tbuff[..TABLE_SIZE])
    ensures |words| == len && AreWords(stops, k, words)
    ensures tbuff[SEED..] == Splice(old(tbuff[SEED..]), out - SEED, words)
    ensures k + len < LEAVES ==> Heading(tbuff[..], f, stops[k + len])
  {
    ghost var st, cur, r :|
      OnTheWay(f, stops[k].leaf, stops[k].stack, st, cur, 0, r) && Stored(tbuff[..], st, cur);
    var t2, t1, t3, t5 := tbuff[DEPTH], tbuff[REG_A], tbuff[REG_B], tbuff[REG_HEAP];
    ghost var way := WaysOf(f, stops);
    assert way(k, Node(Regs(t1, t3), t5), st, r);
    t1, t2, t3, t5, st, r, words := WalkWords(tbuff, out, len, t1, t2, t3, t5, f, stops, way, k, st, r);
    assert k + len < LEAVES ==>
             OnTheWay(f, stops[k + len].leaf, stops[k + len].stack, st, Node(Regs(t1, t3), t5), 0, r);
    SaveWalk(tbuff, t1, t2, t3, t5, st);
  }

  /** The key words of leaves k, k + 1, ..., each as a seek to its leaf gives it. */
  ghost predicate AreKeyWords(t: Table, seed: Word, k: nat, words: seq<Word>) {
    k + |words| <= Pow2(LEVELS) && forall i :: 0 <= i < |words| ==> words[i] == KeyWord(t, seed, k + i)
  }

  /**
   * encshare2: write the next len keystream words at slot out of the buffer. From a state on the way to
   * leaf k these are exactly the words that seeking to k, k + 1, ... would give.
   */
  method Walk(tbuff: array<Word>, out: nat, len: nat, ghost seed: Word, ghost k: nat)
    returns (ghost words: seq<Word>)
    requires FREE <= out && out + len <= tbuff.Length
    requires InState(tbuff[..], seed, k)
    requires k + len <= LEAVES
    modifies tbuff
    ensures Pow2(LEVELS) == LEAVES
    ensures tbuff[..TABLE_SIZE] == old(tbuff[..TABLE_SIZE])
    ensures |words| == len && AreKeyWords(tbuff[..TABLE_SIZE], seed, k, words)
    ensures tbuff[SEED..] == Splice(old(tbuff[SEED..]), out - SEED, words)
    ensures k + len < LEAVES ==> InState(tbuff[..], seed, k + len)
  {
    SixteenLevels();
    ghost var table: Table := tbuff[..TABLE_SIZE];
    ghost var f := MixRules(table);
    ghost var stops := Stops(f, seed);
    MixRulesFollow(table);
    StopsTour(f, seed);
    StateHeads(tbuff[..], table, seed, k);
    words := WalkTour(tbuff, out, len, f, stops, k);
    WordsOfStops(table, seed, k, words);
    if k + len < LEAVES {
      StateHeads(tbuff[..], table, seed, k + len);
    }
  }

  lemma StateHeads(buf: seq<Word>, t: Table, seed: Word, k: nat)
    requires Pow2(LEVELS) == LEAVES && k < LEAVES && |buf| >= FREE && buf[..TABLE_SIZE] == t
    ensures InState(buf, seed, k) <==> Heading(buf, MixRules(t), Stops(MixRules(t), seed)[k])
  {
  }

  lemma WordsOfStops(t: Table, seed: Word, k: nat, words: seq<Word>)
    requires Pow2(LEVELS) == LEAVES
    requires AreWords(Stops(MixRules(t), seed), k, words)
    ensures AreKeyWords(t, seed, k, words)
  {
  }

  function Total(pieces: seq<nat>): nat {
    if pieces == [] then 0 else Total(pieces[..|pieces| - 1]) + pieces[|pieces| - 1]
  }

  lemma MoreKeyWords(t: Table, seed: Word, words: seq<Word>, piece: seq<Word>)
    requires AreKeyWords(t, seed, 0, words) && AreKeyWords(t, seed, |words|, piece)
    ensures AreKeyWords(t, seed, 0, words + piece)
  {
    var more := words + piece;
    forall i | 0 <= i < |more|
      ensures more[i] == KeyWord(t, seed, i)
    {
      if i >= |words| {
        assert more[i] == piece[i - |words|];
      }
    }
  }

  /** One more piece of them. */
  method WalkPiece(tbuff: array<Word>, out: nat, len: nat, ghost seed: Word, ghost words: seq<Word>)
    returns (ghost more: seq<Word>)
    requires FREE <= out && out + len <= tbuff.Length && |words| + len <= LEAVES
    requires |words| < LEAVES ==> InState(tbuff[..], seed, |words|)
    requires AreKeyWords(tbuff[..TABLE_SIZE], seed, 0, words)
    modifies tbuff
    ensures tbuff[..TABLE_SIZE] == old(tbuff[..TABLE_SIZE])
    ensures |more| == |words| + len && AreKeyWords(tbuff[..TABLE_SIZE], seed, 0, more)
    ensures |more| < LEAVES ==> InState(tbuff[..], seed, |more|)
  {
    if len == 0 {
      return words;
    }
    ghost var piece := Walk(tbuff, out, len, seed, |words|);
    MoreKeyWords(tbuff[..TABLE_SIZE], seed, words, piece);
    more := words + piece;
  }

  /**
   * A seek to leaf 0 and any number of walks, each writing its piece at the same slot: the words of all pieces
   * together are those that seeking to leaf 0, 1, ... would give.
   */
  method SeekAndWalk(tbuff: array<Word>, n1: int, n2: int, pieces: seq<nat>, out: nat) returns (ghost words: seq<Word>)
    requires n2 % LEAVES == 0
    requires FREE <= out <= tbuff.Length && Total(pieces) <= LEAVES
    requires forall i :: 0 <= i < |pieces| ==> out + pieces[i] <= tbuff.Length
    modifies tbuff
    ensures tbuff[..TABLE_SIZE] == old(tbuff[..TABLE_SIZE])
    ensures |words| == Total(pieces) && AreKeyWords(tbuff[..TABLE_SIZE], n1 % WORD_SIZE, 0, words)
  {
    ghost var table: Table := tbuff[..TABLE_SIZE];
    ghost var seed, k := Seek(tbuff, n1, n2);
    words := [];
    for j := 0 to |pieces|
      invariant tbuff[..TABLE_SIZE] == table
      invariant |words| == Total(pieces[..j]) <= LEAVES && AreKeyWords(table, seed, 0, words)
      invariant |words| < LEAVES ==> InState(tbuff[..], seed, |words|)
    {
      TotalGrows(pieces, j);
      words := WalkPiece(tbuff, out, pieces[j], seed, words);
    }
    assert pieces[..|pieces|] == pieces;
  }

  lemma TotalGrows(pieces: seq<nat>, j: nat)
    requires j < |pieces|
    ensures Total(pieces[..j + 1]) == Total(pieces[..j]) + pieces[j] <= Total(pieces)
    decreases |pieces| - j
  {
    assert pieces[..j + 1][..j] == pieces[..j];
    if j + 1 < |pieces| {
      TotalGrows(pieces, j + 1);
    } else {
      assert pieces[..j + 1] == pieces;
    }
  }
}
