/** The key schedules of the GameSpy ciphers: shuffles that swap table entries under control of a key. */
module KeySchedule {
  import opened Words
  import Keystream

  const SIZE := 256

  function Identity(): (s: seq<int>)
    ensures |s| == SIZE
  {
    seq(SIZE, i => i)
  }

  /** Every byte value occurs exactly once. */
  ghost predicate IsPermutation(s: seq<int>) {
    multiset(s) == multiset(Identity())
  }

  lemma PermutationContents(s: seq<int>)
    requires IsPermutation(s)
    ensures |s| == SIZE
    ensures forall i :: 0 <= i < |s| ==> 0 <= s[i] < SIZE
    ensures forall v :: 0 <= v < SIZE ==> v in s
  {
    assert |multiset(s)| == |multiset(Identity())|;
    forall i | 0 <= i < |s|
      ensures 0 <= s[i] < SIZE
    {
      assert s[i] in multiset(s);
      assert s[i] in Identity();
    }
    forall v | 0 <= v < SIZE
      ensures v in s
    {
      assert Identity()[v] == v;
      assert v in multiset(Identity());
    }
  }

  function Swap<T>(s: seq<T>, i: nat, j: nat): seq<T>
    requires i < |s| && j < |s|
  {
    s[i := s[j]][j := s[i]]
  }

  lemma SwapKeeps<T>(s: seq<T>, i: nat, j: nat)
    requires i < |s| && j < |s|
    ensures multiset(Swap(s, i, j)) == multiset(s)
  {
  }

  /** Byte b of every word. */
  function Lane(s: seq<Word>, b: nat): (lane: seq<int>)
    requires b < 4
    ensures |lane| == |s|
  {
    seq(|s|, i requires 0 <= i < |s| => ByteOf(s[i], b))
  }

  /** The lowest lanes are permutations. */
  ghost predicate LanesPermute(s: seq<Word>, lanes: nat) {
    lanes <= 4 && forall b :: 0 <= b < lanes ==> IsPermutation(Lane(s, b))
  }

  lemma SwapLanes(s: seq<Word>, i: nat, j: nat, lanes: nat)
    requires i < |s| && j < |s|
    requires LanesPermute(s, lanes)
    ensures LanesPermute(Swap(s, i, j), lanes)
  {
    forall b | 0 <= b < lanes
      ensures IsPermutation(Lane(Swap(s, i, j), b))
    {
      assert Lane(Swap(s, i, j), b) == Swap(Lane(s, b), i, j);
      SwapKeeps(Lane(s, b), i, j);
    }
  }

  /** (w << 8) + i */
  function PushByte(w: Word, i: Byte): Word {
    w % 0x100_0000 * 0x100 + i
  }

  lemma PushByteMovesUp(w: Word, i: Byte)
    ensures ByteOf(PushByte(w, i), 0) == i
    ensures ByteOf(PushByte(w, i), 1) == ByteOf(w, 0)
    ensures ByteOf(PushByte(w, i), 2) == ByteOf(w, 1)
    ensures ByteOf(PushByte(w, i), 3) == ByteOf(w, 2)
  {
    var a: int, b: int, c: int, d: int := ByteOf(w, 0), ByteOf(w, 1), ByteOf(w, 2), ByteOf(w, 3);
    SumOfBytes(w);
    assert w % 0x100_0000 == a + 0x100 * b + 0x1_0000 * c;
    BytesOfSum(i, a, b, c);
    assert PushByte(w, i) == i + 0x100 * a + 0x1_0000 * b + 0x100_0000 * c;
  }

  function PushIndices(s: seq<Word>): (r: seq<Word>)
    requires |s| == SIZE
    ensures |r| == SIZE
  {
    seq<Word>(SIZE, i requires 0 <= i < SIZE => PushByte(s[i], i))
  }

  /** Pushing the indices in makes a new lowest lane and moves the others up. */
  lemma PushAddsLane(s: seq<Word>, lanes: nat)
    requires |s| == SIZE && lanes < 4
    requires LanesPermute(s, lanes)
    ensures LanesPermute(PushIndices(s), lanes + 1)
  {
    var r := PushIndices(s);
    forall i | 0 <= i < SIZE
      ensures ByteOf(r[i], 0) == i
      ensures forall b :: 0 < b < 4 ==> ByteOf(r[i], b) == ByteOf(s[i], b - 1)
    {
      PushByteMovesUp(s[i], i);
    }
    assert Lane(r, 0) == Identity();
    forall b | 0 < b <= lanes
      ensures Lane(r, b) == Lane(s, b - 1)
    {
    }
  }

  /** A table under shuffle, and the running position. */
  datatype Shuffle = Shuffle(s: seq<Word>, pos: Byte)

  /** n steps of the shuffle shared by encshare4 and func3: entry i trades places with one the key picks. */
  function Steps(start: Shuffle, key: seq<Byte>, n: nat): (r: Shuffle)
    requires |start.s| == SIZE && |key| > 0 && n <= SIZE
    ensures |r.s| == SIZE
    decreases n, key
  {
    if n == 0 then start
    else
      var p := Steps(start, key, n - 1);
      var pos: Byte := (p.pos + p.s[n - 1] + key[(n - 1) % |key|]) % 0x100;
      Shuffle(Swap(p.s, n - 1, pos), pos)
  }

  lemma {:induction false} StepsKeep(start: Shuffle, key: seq<Byte>, n: nat)
    requires |start.s| == SIZE && |key| > 0 && n <= SIZE
    ensures multiset(Steps(start, key, n).s) == multiset(start.s)
    ensures forall lanes :: LanesPermute(start.s, lanes) ==> LanesPermute(Steps(start, key, n).s, lanes)
    decreases n
  {
    if n > 0 {
      StepsKeep(start, key, n - 1);
      var p, r := Steps(start, key, n - 1), Steps(start, key, n);
      SwapKeeps(p.s, n - 1, r.pos);
      forall lanes | LanesPermute(start.s, lanes)
        ensures LanesPermute(r.s, lanes)
      {
        SwapLanes(p.s, n - 1, r.pos, lanes);
      }
    }
  }

  /** The entries that the shuffle meets at the places it comes to, added up. */
  function MetSum(start: Shuffle, key: seq<Byte>, n: nat): int
    requires |start.s| == SIZE && |key| > 0 && n <= SIZE
    decreases n, key
  {
    if n == 0 then 0 else MetSum(start, key, n - 1) + Steps(start, key, n - 1).s[n - 1]
  }

  /** The first n bytes of the key, over and over again. */
  function KeySum(key: seq<Byte>, n: nat): int
    requires |key| > 0
    decreases n, key
  {
    if n == 0 then 0 else KeySum(key, n - 1) + key[(n - 1) % |key|]
  }

  lemma AddedModulo(x: int, y: int, m: int)
    requires m == x % 0x100
    ensures (m + y) % 0x100 == (x + y) % 0x100
  {
  }

  /** The position has moved by all the entries met and all the bytes of the key. */
  lemma {:induction false} PositionSums(start: Shuffle, key: seq<Byte>, n: nat)
    requires |start.s| == SIZE && |key| > 0 && n <= SIZE
    ensures Steps(start, key, n).pos == (start.pos + MetSum(start, key, n) + KeySum(key, n)) % 0x100
    decreases n
  {
    if n > 0 {
      PositionSums(start, key, n - 1);
      var p := Steps(start, key, n - 1);
      AddedModulo(start.pos + MetSum(start, key, n - 1) + KeySum(key, n - 1), p.s[n - 1] + key[(n - 1) % |key|], p.pos);
    }
  }

  /** One step back: the entries trade places again, and the position moves down. */
  function Undone(r: Shuffle, k: int, i: nat): Shuffle
    requires |r.s| == SIZE && i < SIZE
  {
    Shuffle(Swap(r.s, r.pos, i), (r.pos - r.s[r.pos] - k) % 0x100)
  }

  /** The shuffle back from where n steps have led. */
  function Back(end: Shuffle, key: seq<Byte>, n: nat): Shuffle
    requires |end.s| == SIZE && |key| > 0 && n <= SIZE
    decreases n, key
  {
    if n == 0 then end else Back(Undone(end, key[(n - 1) % |key|], n - 1), key, n - 1)
  }

  lemma StepBack(p: Shuffle, k: int, i: nat, r: Shuffle)
    requires |p.s| == SIZE && i < SIZE
    requires r.pos == (p.pos + p.s[i] + k) % 0x100 && r.s == Swap(p.s, i, r.pos)
    ensures Undone(r, k, i) == p
  {
    assert r.s[r.pos] == p.s[i] && Swap(r.s, r.pos, i) == p.s;
    var met: int := p.s[i];
    AddedModulo(p.pos + met + k, -met - k, r.pos);
  }

  lemma StepUndone(start: Shuffle, key: seq<Byte>, n: nat, at: nat)
    requires |start.s| == SIZE && |key| > 0 && 0 < n <= SIZE && at == (n - 1) % |key|
    ensures Undone(Steps(start, key, n), key[at], n - 1) == Steps(start, key, n - 1)
  {
    StepBack(Steps(start, key, n - 1), key[at], n - 1, Steps(start, key, n));
  }

  /** The key leads back: no two tables are shuffled into the same one, with the same position. */
  lemma {:induction false} StepsBack(start: Shuffle, key: seq<Byte>, n: nat)
    requires |start.s| == SIZE && |key| > 0 && n <= SIZE
    ensures Back(Steps(start, key, n), key, n) == start
    decreases n
  {
    if n > 0 {
      StepsBack(start, key, n - 1);
      StepUndone(start, key, n, (n - 1) % |key|);
    }
  }

  /** A shuffle over a whole table in place. */
  method ShuffleWords(a: array<Word>, key: seq<Byte>, pos0: Byte) returns (pos: Byte)
    requires a.Length >= SIZE && |key| > 0
    modifies a
    ensures Shuffle(a[..SIZE], pos) == Steps(Shuffle(old(a[..SIZE]), pos0), key, SIZE)
  {
    pos := pos0;
    ghost var start := Shuffle(a[..SIZE], pos0);
    var i := 0;
    while i < SIZE
      invariant 0 <= i <= SIZE
      invariant Shuffle(a[..SIZE], pos) == Steps(start, key, i)
    {
      ghost var s := a[..SIZE];
      var tmp := a[i];
      pos := (pos + tmp + key[i % |key|]) % 0x100;
      a[i] := a[pos];
      a[pos] := tmp;
      assert a[..SIZE] == Swap(s, i, pos);
      i := i + 1;
    }
  }

  // ---------------------------------------------------------------------------------------------
  // encshare4

  /** The table after y of encshare4's four rounds; each adds a lane and shuffles the words twice. */
  function Rounds(src: seq<Byte>, y: nat): (s: seq<Word>)
    requires |src| > 0 && y <= 4
    ensures |s| == SIZE
    decreases y, src
  {
    if y == 0 then seq<Word>(SIZE, _ => 0)
    else
      var once := Steps(Shuffle(PushIndices(Rounds(src, y - 1)), y - 1), src, SIZE);
      Steps(once, src, SIZE).s
  }

  /** Before the last xor each of the four byte lanes holds every byte value once. */
  lemma {:induction false} RoundsPermute(src: seq<Byte>, y: nat)
    requires |src| > 0 && y <= 4
    ensures LanesPermute(Rounds(src, y), y)
    decreases y
  {
    if y > 0 {
      RoundsPermute(src, y - 1);
      var pushed := PushIndices(Rounds(src, y - 1));
      PushAddsLane(Rounds(src, y - 1), y - 1);
      StepsKeep(Shuffle(pushed, y - 1), src, SIZE);
      StepsKeep(Steps(Shuffle(pushed, y - 1), src, SIZE), src, SIZE);
    }
  }

  /** Every entry xored with its index. */
  function IndicesXored(s: seq<Word>): seq<Word>
    requires |s| == SIZE
  {
    seq<Word>(SIZE, i requires 0 <= i < SIZE => Xor(s[i], i))
  }

  /** Only the lowest lane changes, each of its bytes by its index, and the same again undoes it. */
  lemma IndicesXoredLanes(s: seq<Word>, i: nat)
    requires |s| == SIZE && i < SIZE
    ensures ByteOf(IndicesXored(s)[i], 0) == XorByte(ByteOf(s[i], 0), i)
    ensures forall b :: 0 < b < 4 ==> ByteOf(IndicesXored(s)[i], b) == ByteOf(s[i], b)
    ensures IndicesXored(IndicesXored(s))[i] == s[i]
  {
    forall b | 0 <= b < 4
      ensures ByteOf(Xor(s[i], i), b) == XorByte(ByteOf(s[i], b), if b == 0 then i else 0)
    {
      XorByBytes(s[i], i, b);
    }
    forall b | 0 < b < 4
      ensures XorByte(ByteOf(s[i], b), 0) == ByteOf(s[i], b)
    {
      XorZero(ByteOf(s[i], b));
    }
    XorBitsTwice(s[i], i);
  }

  /** encshare4: fill the table from the key and seek to leaf 0 of the tree grown from 0. */
  method MakeTable(src: seq<Byte>, dest: array<Word>) returns (ghost seed: Word, ghost k: nat)
    requires |src| > 0
    requires dest.Length >= Keystream.FREE
    modifies dest
    ensures dest[..SIZE] == IndicesXored(Rounds(src, 4))
    ensures Keystream.InState(dest[..], seed, k)
    ensures seed == 0 % WORD_SIZE && k == 0 % Keystream.LEAVES
  {
    RunRounds(src, dest);
    XorIndices(dest);
    seed, k := Keystream.Seek(dest, 0, 0);
  }

  method RunRounds(src: seq<Byte>, dest: array<Word>)
    requires |src| > 0 && dest.Length >= SIZE
    modifies dest
    ensures dest[..SIZE] == Rounds(src, 4)
  {
    Clear(dest);
    var y := 0;
    while y < 4
      invariant 0 <= y <= 4
      invariant dest[..SIZE] == Rounds(src, y)
    {
      PushAll(dest);
      var pos := ShuffleWords(dest, src, y);
      pos := ShuffleWords(dest, src, pos);
      y := y + 1;
    }
  }

  method Clear(dest: array<Word>)
    requires dest.Length >= SIZE
    modifies dest
    ensures dest[..SIZE] == seq<Word>(SIZE, _ => 0)
  {
    var i := 0;
    while i < SIZE
      invariant 0 <= i <= SIZE
      invariant forall j :: 0 <= j < i ==> dest[j] == 0
    {
      dest[i] := 0;
      i := i + 1;
    }
  }

  method PushAll(dest: array<Word>)
    requires dest.Length >= SIZE
    modifies dest
    ensures dest[..SIZE] == PushIndices(old(dest[..SIZE]))
  {
    var i := 0;
    while i < SIZE
      invariant 0 <= i <= SIZE
      invariant forall j :: 0 <= j < i ==> dest[j] == PushByte(old(dest[j]), j)
      invariant forall j :: i <= j < SIZE ==> dest[j] == old(dest[j])
    {
      dest[i] := PushByte(dest[i], i);
      i := i + 1;
    }
  }

  method XorIndices(dest: array<Word>)
    requires dest.Length >= SIZE
    modifies dest
    ensures dest[..SIZE] == IndicesXored(old(dest[..SIZE]))
  {
    var i := 0;
    while i < SIZE
      invariant 0 <= i <= SIZE
      invariant forall j {:trigger dest[j]} :: 0 <= j < i ==> dest[j] == Xor(old(dest[j]), j)
      invariant forall j :: i <= j < SIZE ==> dest[j] == old(dest[j])
    {
      dest[i] := Xor(dest[i], i);
      i := i + 1;
    }
  }

  // ---------------------------------------------------------------------------------------------
  // func3

  function Countdown(): (s: seq<Word>)
    ensures |s| == SIZE
  {
    seq<Word>(SIZE, i requires 0 <= i < SIZE => 255 - i)
  }

  lemma {:induction false} CountdownContents(n: nat)
    requires n <= SIZE
    ensures multiset(seq(n, i => n - 1 - i)) == multiset(seq(n, i => i))
  {
    if n > 0 {
      CountdownContents(n - 1);
      assert seq(n, i => n - 1 - i) == [n - 1] + seq(n - 1, i => n - 2 - i);
      assert seq(n, i => i) == seq(n - 1, i => i) + [n - 1];
    }
  }

  lemma Func3Permutes(data: seq<Byte>)
    requires |data| > 0
    ensures IsPermutation(Steps(Shuffle(Countdown(), 0), data, SIZE).s)
  {
    StepsKeep(Shuffle(Countdown(), 0), data, SIZE);
    CountdownContents(SIZE);
    assert Countdown() == seq(SIZE, i => SIZE - 1 - i);
    assert Identity() == seq(SIZE, i => i);
  }

  /** func3: fill the table downwards, clear the two registers behind it, and shuffle. */
  method Func3(data: seq<Byte>, buff: array<Word>)
    requires |data| > 0 && buff.Length >= SIZE + 2
    modifies buff
    ensures buff[..SIZE] == Steps(Shuffle(Countdown(), 0), data, SIZE).s
    ensures buff[SIZE] == 0 && buff[SIZE + 1] == 0
  {
    var rev := 0xff;
    var i := 0;
    while i < SIZE
      invariant 0 <= i <= SIZE
      invariant rev == (255 - i) % 0x100
      invariant forall j :: 0 <= j < i ==> buff[j] == 255 - j
    {
      buff[i] := rev;
      rev := (rev - 1) % 0x100;
      i := i + 1;
    }
    assert buff[..SIZE] == Countdown();
    var pos := ShuffleWords(buff, data, 0);
    buff[SIZE] := 0;
    buff[SIZE + 1] := 0;
  }

  // ---------------------------------------------------------------------------------------------
  // func4 and func5

  /** The least number of the form 2^m - 1 from mask on that covers cnt. */
  function MaskFor(cnt: nat, mask: nat): (m: nat)
    requires cnt >= 1
    ensures m >= cnt
    ensures mask <= 2 * cnt ==> m <= 2 * cnt
    decreases cnt - mask
  {
    if mask >= cnt then mask else MaskFor(cnt, 2 * mask + 1)
  }

  /** The mask has all of the low bits set that a number up to cnt needs, and no others. */
  lemma {:induction false} MaskPower(cnt: nat, bits: nat) returns (k: nat)
    requires cnt >= 1 && bits >= 1 && (bits == 1 || Pow2(bits - 1) <= cnt)
    ensures MaskFor(cnt, Pow2(bits) - 1) == Pow2(k) - 1
    ensures k >= 1 && cnt < Pow2(k) && (k == 1 || Pow2(k - 1) <= cnt)
    decreases cnt - bits
  {
    BitsFit(bits);
    if Pow2(bits) - 1 >= cnt {
      k := bits;
    } else {
      k := MaskPower(cnt, bits + 1);
    }
  }

  lemma {:induction false} BitsFit(n: nat)
    ensures n < Pow2(n)
  {
    if n > 0 {
      BitsFit(n - 1);
    }
  }

  /** A number drawn, and func5's two running values after the draw. */
  datatype Draw = Draw(value: nat, n1: nat, n2: nat)

  /** One draw of func5; from the twelfth round on the number is reduced below cnt. */
  function DrawOnce(key: seq<Word>, id: seq<Byte>, cnt: nat, mask: nat, n1: nat, n2: nat, i: nat): (d: Draw)
    requires |key| >= SIZE && n2 < |id| && cnt >= 1
    ensures d.n2 < |id| && (i >= 11 ==> d.value < cnt)
  {
    var sum := key[n1 % 0x100] + id[n2];
    var n1' := if n2 + 1 >= |id| then sum + |id| else sum;
    Draw(if i + 1 > 11 then n1' % (mask + 1) % cnt else n1' % (mask + 1), n1', if n2 + 1 >= |id| then 0 else n2 + 1)
  }

  /** The draws of func5 from round i on: draw under the mask until a number is at most cnt. */
  function Sample(key: seq<Word>, id: seq<Byte>, cnt: nat, mask: nat, n1: nat, n2: nat, i: nat): (d: Draw)
    requires |key| >= SIZE && n2 < |id| && cnt >= 1 && i < 12
    ensures d.value <= cnt && d.n2 < |id|
    decreases 12 - i, id
  {
    var d := DrawOnce(key, id, cnt, mask, n1, n2, i);
    if d.value > cnt then Sample(key, id, cnt, mask, d.n1, d.n2, i + 1) else d
  }

  function Drawn(key: seq<Word>, id: seq<Byte>, cnt: nat, n1: nat, n2: nat): (d: Draw)
    requires |key| >= SIZE && n2 < |id|
    ensures d.value <= cnt && d.n2 < |id|
  {
    if cnt == 0 then Draw(0, n1, n2) else Sample(key, id, cnt, MaskFor(cnt, 1), n1, n2, 0)
  }

  method MaskLoop(cnt: nat) returns (mask: nat)
    requires cnt >= 1
    ensures mask == MaskFor(cnt, 1)
  {
    mask := 1;
    if cnt > 1 {
      mask := 3;
      while mask < cnt
        invariant MaskFor(cnt, mask) == MaskFor(cnt, 1)
        decreases cnt - mask
      {
        mask := 2 * mask + 1;
      }
    }
  }

  /** The body of func5's loop, for round i counted from 0. */
  method DrawRound(enc1key: array<Word>, cnt: nat, mask: nat, id: seq<Byte>, n1in: nat, n2in: nat, i: nat)
    returns (tmp: nat, n1: nat, n2: nat)
    requires enc1key.Length >= SIZE && n2in < |id| && cnt >= 1
    ensures Draw(tmp, n1, n2) == DrawOnce(enc1key[..SIZE], id, cnt, mask, n1in, n2in, i)
  {
    n1, n2 := enc1key[n1in % 0x100] + id[n2in], n2in + 1;
    if n2 >= |id| {
      n2 := 0;
      n1 := n1 + |id|;
    }
    tmp := n1 % (mask + 1);
    if i + 1 > 11 {
      tmp := tmp % cnt;
    }
  }

  /** func5: a number in 0..cnt by bounded rejection sampling, within twelve rounds. */
  method Func5(enc1key: array<Word>, cnt: nat, id: seq<Byte>, n1in: nat, n2in: nat)
    returns (tmp: nat, n1: nat, n2: nat, ghost rounds: nat)
    requires enc1key.Length >= SIZE && n2in < |id|
    ensures Draw(tmp, n1, n2) == Drawn(enc1key[..SIZE], id, cnt, n1in, n2in)
    ensures tmp <= cnt && n2 < |id| && rounds <= 12
  {
    n1, n2, rounds := n1in, n2in, 0;
    if cnt == 0 {
      return 0, n1, n2, 0;
    }
    var mask := MaskLoop(cnt);
    ghost var key := enc1key[..SIZE];
    var i := 0;
    tmp := cnt + 1;
    while tmp > cnt
      invariant i <= 12 && n2 < |id|
      invariant if tmp > cnt then i < 12 && Sample(key, id, cnt, mask, n1, n2, i) == Drawn(key, id, cnt, n1in, n2in)
                else Draw(tmp, n1, n2) == Drawn(key, id, cnt, n1in, n2in)
      decreases 12 - i
    {
      tmp, n1, n2 := DrawRound(enc1key, cnt, mask, id, n1, n2, i);
      i := i + 1;
    }
    rounds := i;
  }

  datatype KeyState = KeyState(key: seq<Word>, n1: nat, n2: nat)

  /** func4 after n of its 256 draws: entry 255, 254, ... trades places with a drawn earlier one. */
  function KeyAfter(id: seq<Byte>, n: nat): (r: KeyState)
    requires |id| > 0 && n <= SIZE
    ensures |r.key| == SIZE && r.n2 < |id|
    decreases n, id
  {
    if n == 0 then KeyState(Identity(), 0, 0)
    else
      var p := KeyAfter(id, n - 1);
      var d := Drawn(p.key, id, SIZE - n, p.n1, p.n2);
      KeyState(Swap(p.key, SIZE - n, d.value), d.n1, d.n2)
  }

  lemma LastTrade(id: seq<Byte>, n: nat) returns (at: nat)
    requires |id| > 0 && 0 < n <= SIZE
    ensures at < SIZE
    ensures KeyAfter(id, n).key == Swap(KeyAfter(id, n - 1).key, SIZE - n, at)
  {
    var p := KeyAfter(id, n - 1);
    at := Drawn(p.key, id, SIZE - n, p.n1, p.n2).value;
  }

  lemma TradeKeeps(key: seq<Word>, traded: seq<Word>, i: nat, at: nat)
    requires i < |key| && at < |key| && traded == Swap(key, i, at)
    requires IsPermutation(key)
    ensures IsPermutation(traded)
  {
    SwapKeeps(key, i, at);
  }

  /** One draw, from the state that the draws before it led to. */
  lemma DrawKeeps(id: seq<Byte>, n: nat, before: KeyState)
    requires |id| > 0 && 0 < n <= SIZE && before == KeyAfter(id, n - 1)
    requires IsPermutation(before.key)
    ensures IsPermutation(KeyAfter(id, n).key)
  {
    var at := LastTrade(id, n);
    TradeKeeps(before.key, KeyAfter(id, n).key, SIZE - n, at);
  }

  lemma {:induction false} PermutedAfter(id: seq<Byte>, n: nat) returns (state: KeyState)
    requires |id| > 0 && n <= SIZE
    ensures state == KeyAfter(id, n) && IsPermutation(state.key)
    decreases n
  {
    if n == 0 {
      state := KeyAfter(id, 0);
    } else {
      var before := PermutedAfter(id, n - 1);
      DrawKeeps(id, n, before);
      state := KeyAfter(id, n);
    }
  }

  lemma Func4Permutes(id: seq<Byte>, n: nat)
    requires |id| > 0 && n <= SIZE
    ensures IsPermutation(KeyAfter(id, n).key)
  {
    var state := PermutedAfter(id, n);
  }

  method FillUp(enc1key: array<Word>)
    requires enc1key.Length >= SIZE
    modifies enc1key
    ensures enc1key[..SIZE] == Identity()
  {
    var i := 0;
    while i < SIZE
      invariant 0 <= i <= SIZE
      invariant forall j :: 0 <= j < i ==> enc1key[j] == j
    {
      enc1key[i] := i;
      i := i + 1;
    }
  }

  /** One step of func4's shuffle, for entry i. */
  method DrawAndSwap(enc1key: array<Word>, i: nat, id: seq<Byte>, n1in: nat, n2in: nat) returns (n1: nat, n2: nat)
    requires enc1key.Length >= SIZE && i < SIZE && n2in < |id|
    modifies enc1key
    ensures var d := Drawn(old(enc1key[..SIZE]), id, i, n1in, n2in);
            enc1key[..SIZE] == Swap(old(enc1key[..SIZE]), i, d.value) && n1 == d.n1 && n2 == d.n2
  {
    ghost var key, rounds := enc1key[..SIZE], 0;
    var t1;
    t1, n1, n2, rounds := Func5(enc1key, i, id, n1in, n2in);
    var t2 := enc1key[i];
    enc1key[i] := enc1key[t1];
    enc1key[t1] := t2;
    assert enc1key[..SIZE] == Swap(key, i, t1);
  }

  /** func4: shuffle the key table by the id; its registers are taken from the result. */
  method Func4(enc1key: array<Word>, id: seq<Byte>)
    requires enc1key.Length == SIZE + 5
    modifies enc1key
    ensures id == [] ==> enc1key[..] == old(enc1key[..])
    ensures id != [] ==>
              var r := KeyAfter(id, SIZE);
              enc1key[..] == r.key + [r.key[1], r.key[3], r.key[5], r.key[7], r.key[r.n1 % 0x100]]
  {
    if |id| < 1 {
      return;
    }
    var n1: nat, n2: nat := 0, 0;
    FillUp(enc1key);
    var i := 255;
    while i >= 0
      invariant -1 <= i < SIZE && n2 < |id|
      invariant KeyState(enc1key[..SIZE], n1, n2) == KeyAfter(id, 255 - i)
    {
      n1, n2 := DrawAndSwap(enc1key, i, id, n1, n2);
      i := i - 1;
    }
    TakeRegisters(enc1key, n1);
  }

  method TakeRegisters(enc1key: array<Word>, n1: nat)
    requires enc1key.Length == SIZE + 5
    modifies enc1key
    ensures var key := old(enc1key[..SIZE]);
            enc1key[..] == key + [key[1], key[3], key[5], key[7], key[n1 % 0x100]]
  {
    enc1key[256] := enc1key[1];
    enc1key[257] := enc1key[3];
    enc1key[258] := enc1key[5];
    enc1key[259] := enc1key[7];
    enc1key[260] := enc1key[n1 % 0x100];
  }
}
