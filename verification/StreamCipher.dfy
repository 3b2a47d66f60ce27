/** encshare1: data bytes are xored with the bytes of the keystream words. */
module StreamCipher {
  import opened Words
  import opened Tree
  import opened Keystream

  /** Words written by one refill, and the bytes taken from them: the last byte of each refill is skipped. */
  const REFILL_WORDS := 16
  const REFILL_BYTES := 63

  /** The number of the refill that serves byte i. */
  function RefillOf(i: nat): nat {
    i / REFILL_BYTES
  }

  /** Keystream words consumed for len bytes; the first refill comes before any byte. */
  function WordsFor(len: nat): nat {
    if len == 0 then REFILL_WORDS else REFILL_WORDS * (RefillOf(len - 1) + 1)
  }

  /** All keystream words of a table and a seed, in order. */
  ghost predicate AreKeys(t: Table, seed: Word, keys: seq<Word>) {
    && |keys| == LEAVES == Pow2(LEVELS)
    && forall k :: 0 <= k < LEAVES ==> keys[k] == KeyWord(t, seed, k)
  }

  /** The key byte for data byte i: byte i mod 63 of refill i / 63. */
  function StreamByte(keys: seq<Word>, k: nat, i: nat): Byte
    requires |keys| == LEAVES && k + WordsFor(i + 1) <= LEAVES
  {
    var p := i % REFILL_BYTES;
    ByteOf(keys[k + REFILL_WORDS * RefillOf(i) + p / 4], p % 4)
  }

  /** Sixty-three bytes are taken of every sixteen words, the lowest of each word first. */
  lemma StreamByteAt(keys: seq<Word>, k: nat, b: nat, p: nat)
    requires |keys| == LEAVES && p < 63
    requires k + 16 * (b + 1) <= LEAVES
    ensures WordsFor(63 * b + p + 1) == 16 * (b + 1)
    ensures StreamByte(keys, k, 63 * b + p) == ByteOf(keys[k + 16 * b + p / 4], p % 4)
  {
    var i := 63 * b + p;
    assert RefillOf(i) == b && i % REFILL_BYTES == p;
  }

  /** The first n stream bytes. */
  function Stream(keys: seq<Word>, k: nat, n: nat): (bytes: seq<Byte>)
    requires |keys| == LEAVES && k + WordsFor(n) <= LEAVES
    ensures |bytes| == n
    decreases n, k
  {
    if n == 0 then []
    else
      WordsForMonotone(n - 1, n);
      Stream(keys, k, n - 1) + [StreamByte(keys, k, n - 1)]
  }

  lemma {:induction false} StreamAt(keys: seq<Word>, k: nat, n: nat, i: nat)
    requires |keys| == LEAVES && k + WordsFor(n) <= LEAVES && i < n
    ensures k + WordsFor(i + 1) <= LEAVES
    ensures Stream(keys, k, n)[i] == StreamByte(keys, k, i)
    decreases n
  {
    WordsForMonotone(i + 1, n);
    WordsForMonotone(n - 1, n);
    var front := Stream(keys, k, n - 1);
    assert Stream(keys, k, n) == front + [StreamByte(keys, k, n - 1)];
    if i < n - 1 {
      StreamAt(keys, k, n - 1, i);
    }
  }

  lemma WordsForMonotone(m: nat, n: nat)
    requires m <= n
    ensures REFILL_WORDS <= WordsFor(m) <= WordsFor(n)
  {
  }

  lemma EndOfRefills(n: nat, b: nat, p: nat)
    requires n == REFILL_BYTES * b + p && p <= REFILL_BYTES && (n > 0 ==> p > 0)
    ensures WordsFor(n) == REFILL_WORDS * (b + 1)
  {
    assert n > 0 ==> RefillOf(n - 1) == b;
  }

  /** keys are the words of the stops of a tour. */
  ghost predicate KeysOf(stops: seq<Stop>, keys: seq<Word>) {
    && |keys| == |stops| == LEAVES
    && forall k {:trigger WordOf(stops[k])} :: 0 <= k < LEAVES ==> keys[k] == WordOf(stops[k])
  }

  /** Whether a buffer's walk heads for stop k. */
  type Readiness = (seq<Word>, nat) -> bool

  /** ready tells just that, stated so that a proof sees the walk only where it asks for it. */
  ghost predicate TellsReady(ready: Readiness, f: Rules<Regs>, stops: seq<Stop>) {
    && |stops| == LEAVES
    && forall buf, k {:trigger Heading(buf, f, stops[k])} ::
         0 <= k < LEAVES ==> (ready(buf, k) <==> Heading(buf, f, stops[k]))
  }

  ghost function ReadinessOf(f: Rules<Regs>, stops: seq<Stop>): (ready: Readiness)
    requires |stops| == LEAVES
    ensures TellsReady(ready, f, stops)
  {
    (buf, k: nat) => k < LEAVES && Heading(buf, f, stops[k])
  }

  /** The buffer's walk heads for stop k, if there is one. */
  ghost predicate Ready(buf: seq<Word>, ready: Readiness, k: nat) {
    k < LEAVES ==> ready(buf, k)
  }

  lemma KeysAreKeys(t: Table, seed: Word, keys: seq<Word>)
    requires Pow2(LEVELS) == LEAVES
    requires KeysOf(Stops(MixRules(t), seed), keys)
    ensures AreKeys(t, seed, keys)
  {
    forall k | 0 <= k < LEAVES
      ensures keys[k] == KeyWord(t, seed, k)
    {
      assert keys[k] == WordOf(Stops(MixRules(t), seed)[k]);
    }
  }

  /** A refill writes the next sixteen words right behind the working buffer. */
  method Refill(tbuff: array<Word>, ghost f: Rules<Regs>, ghost stops: seq<Stop>, ghost ready: Readiness,
                ghost keys: seq<Word>, ghost k: nat)
    requires tbuff.Length >= FREE + REFILL_WORDS && Follows(f, tbuff[..TABLE_SIZE])
    requires Tour(f, stops) && KeysOf(stops, keys) && TellsReady(ready, f, stops)
    requires Ready(tbuff[..], ready, k) && k + REFILL_WORDS <= LEAVES
    modifies tbuff
    ensures tbuff[..TABLE_SIZE] == old(tbuff[..TABLE_SIZE])
    ensures tbuff[FREE..FREE + REFILL_WORDS] == keys[k..k + REFILL_WORDS]
    ensures Ready(tbuff[..], ready, k + REFILL_WORDS)
  {
    assert Heading(tbuff[..], f, stops[k]);
    ghost var words := WalkTour(tbuff, FREE, REFILL_WORDS, f, stops, k);
    assert tbuff[FREE..FREE + REFILL_WORDS] == words;
    assert k + REFILL_WORDS < LEAVES ==> Heading(tbuff[..], f, stops[k + REFILL_WORDS]);
  }

  /** Where encshare1's loop stands before byte i: p bytes of refill b are used up, and i bytes are done. */
  ghost predicate Serving(buf: seq<Word>, f: Rules<Regs>, stops: seq<Stop>, ready: Readiness, keys: seq<Word>,
                          k: nat, b: nat, p: nat, i: nat)
  {
    && |buf| >= FREE + REFILL_WORDS && Follows(f, buf[..TABLE_SIZE])
    && Tour(f, stops) && KeysOf(stops, keys) && TellsReady(ready, f, stops)
    && k + REFILL_WORDS * (b + 1) <= LEAVES
    && Ready(buf, ready, k + REFILL_WORDS * (b + 1))
    && buf[FREE..FREE + REFILL_WORDS] == keys[k + REFILL_WORDS * b..k + REFILL_WORDS * (b + 1)]
    && p <= REFILL_BYTES && i == REFILL_BYTES * b + p && (i > 0 ==> p > 0)
  }

  /** The head of encshare1's loop, for byte i: refill when 63 bytes are used up, then take the next byte. */
  method NextByte(tbuff: array<Word>, p: nat, ghost f: Rules<Regs>, ghost stops: seq<Stop>, ghost ready: Readiness,
                  ghost keys: seq<Word>, ghost k: nat, ghost b: nat, ghost i: nat)
    returns (p': nat, key: Byte, ghost b': nat)
    requires Serving(tbuff[..], f, stops, ready, keys, k, b, p, i)
    requires k + WordsFor(i + 1) <= LEAVES
    modifies tbuff
    ensures tbuff[..TABLE_SIZE] == old(tbuff[..TABLE_SIZE])
    ensures Serving(tbuff[..], f, stops, ready, keys, k, b', p', i + 1)
    ensures key == StreamByte(keys, k, i)
  {
    p', b' := p, b;
    if p == REFILL_BYTES {
      EndOfRefills(i + 1, b + 1, 1);
      Refill(tbuff, f, stops, ready, keys, k + REFILL_WORDS * (b + 1));
      p', b' := 0, b + 1;
    }
    StreamByteAt(keys, k, b', p');
    key := ByteOf(tbuff[FREE..FREE + REFILL_WORDS][p' / 4], p' % 4);
    p' := p' + 1;
  }

  method XorAll(tbuff: array<Word>, data: array<Byte>,
                ghost f: Rules<Regs>, ghost stops: seq<Stop>, ghost ready: Readiness, ghost keys: seq<Word>,
                ghost k: nat)
    returns (ghost b: nat, ghost p: nat)
    requires Serving(tbuff[..], f, stops, ready, keys, k, 0, 0, 0)
    requires k + WordsFor(data.Length) <= LEAVES
    modifies tbuff, data
    ensures tbuff[..TABLE_SIZE] == old(tbuff[..TABLE_SIZE])
    ensures XoredWith(old(data[..]), Stream(keys, k, data.Length), data[..])
    ensures Serving(tbuff[..], f, stops, ready, keys, k, b, p, data.Length)
  {
    ghost var was := data[..];
    var used, i := 0, 0;
    b := 0;
    ghost var stream: seq<Byte> := [];
    while i < data.Length
      invariant i <= data.Length
      invariant k + WordsFor(i) <= LEAVES && stream == Stream(keys, k, i)
      invariant tbuff[..TABLE_SIZE] == old(tbuff[..TABLE_SIZE])
      invariant Serving(tbuff[..], f, stops, ready, keys, k, b, used, i)
      invariant XoredWith(was[..i], stream, data[..i]) && data[i..] == was[i..]
    {
      WordsForMonotone(i + 1, data.Length);
      var key;
      used, key, b := NextByte(tbuff, used, f, stops, ready, keys, k, b, i);
      XorOne(data, i, key, was, stream);
      stream := stream + [key];
      i := i + 1;
    }
    p := used;
    assert data[..] == data[..i] && was == was[..i];
  }

  /** now is was with every byte xored with the key byte at its place. */
  ghost predicate XoredWith(was: seq<Byte>, stream: seq<Byte>, now: seq<Byte>) {
    && |was| == |stream| == |now|
    && forall j {:trigger now[j]} :: 0 <= j < |now| ==> now[j] == XorByte(was[j], stream[j])
  }

  /** The body of encshare1's loop on the data. */
  method XorOne(data: array<Byte>, i: nat, key: Byte, ghost was: seq<Byte>, ghost stream: seq<Byte>)
    requires i < data.Length == |was|
    requires XoredWith(was[..i], stream, data[..i]) && data[i..] == was[i..]
    modifies data
    ensures XoredWith(was[..i + 1], stream + [key], data[..i + 1]) && data[i + 1..] == was[i + 1..]
  {
    data[i] := XorByte(data[i], key);
  }

  /** Xoring twice with the same stream gives the data back, so encrypting is decrypting. */
  lemma XoredTwice(was: seq<Byte>, stream: seq<Byte>, once: seq<Byte>, twice: seq<Byte>)
    requires XoredWith(was, stream, once) && XoredWith(once, stream, twice)
    ensures twice == was
  {
    forall j | 0 <= j < |was|
      ensures twice[j] == was[j]
    {
      assert once[j] == XorByte(was[j], stream[j]);
      XorBitsTwice(was[j], stream[j]);
    }
  }

  method EncryptTour(tbuff: array<Word>, data: array<Byte>,
                     ghost f: Rules<Regs>, ghost stops: seq<Stop>, ghost ready: Readiness, ghost keys: seq<Word>,
                     ghost k: nat)
    requires tbuff.Length >= FREE + REFILL_WORDS && Follows(f, tbuff[..TABLE_SIZE])
    requires Tour(f, stops) && KeysOf(stops, keys) && TellsReady(ready, f, stops)
    requires Ready(tbuff[..], ready, k)
    requires k + WordsFor(data.Length) <= LEAVES
    modifies tbuff, data
    ensures tbuff[..TABLE_SIZE] == old(tbuff[..TABLE_SIZE])
    ensures XoredWith(old(data[..]), Stream(keys, k, data.Length), data[..])
    ensures Ready(tbuff[..], ready, k + WordsFor(data.Length))
  {
    WordsForMonotone(0, data.Length);
    Refill(tbuff, f, stops, ready, keys, k);
    ghost var b, p := XorAll(tbuff, data, f, stops, ready, keys, k);
    EndOfRefills(data.Length, b, p);
  }

  /**
   * encshare1: every byte is xored with its stream byte, byte i mod 63 of refill i / 63; the walk ends
   * behind the last refill, so a later call goes on from there.
   */
  method Encrypt(tbuff: array<Word>, data: array<Byte>, ghost seed: Word, ghost k: nat)
    returns (ghost keys: seq<Word>)
    requires tbuff.Length >= FREE + REFILL_WORDS
    requires InState(tbuff[..], seed, k)
    requires k + WordsFor(data.Length) <= LEAVES
    modifies tbuff, data
    ensures tbuff[..TABLE_SIZE] == old(tbuff[..TABLE_SIZE])
    ensures AreKeys(tbuff[..TABLE_SIZE], seed, keys)
    ensures XoredWith(old(data[..]), Stream(keys, k, data.Length), data[..])
    ensures k + WordsFor(data.Length) < LEAVES ==> InState(tbuff[..], seed, k + WordsFor(data.Length))
  {
    SixteenLevels();
    ghost var f := MixRules(tbuff[..TABLE_SIZE]);
    MixRulesFollow(tbuff[..TABLE_SIZE]);
    StopsTour(f, seed);
    ghost var stops := Stops(f, seed);
    keys := seq<Word>(LEAVES, i requires 0 <= i < LEAVES => WordOf(stops[i]));
    KeysAreKeys(tbuff[..TABLE_SIZE], seed, keys);
    ghost var ready := ReadinessOf(f, stops);
    StateHeads(tbuff[..], tbuff[..TABLE_SIZE], seed, k);
    EncryptTour(tbuff, data, f, stops, ready, keys, k);
    if k + WordsFor(data.Length) < LEAVES {
      assert Heading(tbuff[..], f, stops[k + WordsFor(data.Length)]);
      StateHeads(tbuff[..], tbuff[..TABLE_SIZE], seed, k + WordsFor(data.Length));
    }
  }
}
