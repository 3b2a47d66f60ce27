/** The rolling exclusive or over a message (Network/Remote/Encoding.cpp). */
module Encoding {
  import opened Division
  import opened Words

  /** The memory that a command string starts, its terminator at the given length. */
  ghost predicate IsString(memory: seq<Byte>, length: nat) {
    length < |memory| && memory[length] == 0 && forall i :: 0 <= i < length ==> memory[i] != 0
  }

  /** The byte that a character adds to the key at a position, before the position's shift. */
  function KeyCharacter(c: Byte): (r: Byte)
    ensures r < 0x80
  {
    if c > 127 || c == '%' as int then '.' as int else c
  }

  /** The key and the index into the string. */
  datatype State = State(key: Byte, index: nat)

  /** XORKeyIndex and the exclusive or with the key: the key for position i, and the index it was made with. */
  function NextKey(s: State, i: nat, memory: seq<Byte>): State
    requires s.index < |memory|
  {
    var index := if memory[s.index] == 0 then 0 else s.index;
    State(XorByte(s.key, KeyCharacter(memory[index]) * (if i % 2 == 1 then 2 else 1)), index)
  }

  /** The state before position i, when the loop starts at a position; past the memory the index stays. */
  function StateBefore(key: Byte, memory: seq<Byte>, start: nat, i: nat): (s: State)
    requires start <= i && 0 < |memory|
    ensures s.index < |memory|
    decreases i, start
  {
    if i == start then State(key, 0)
    else
      var s := NextKey(StateBefore(key, memory, start, i - 1), i - 1, memory);
      State(s.key, if s.index + 1 < |memory| then s.index + 1 else s.index)
  }

  /** The key for position i. */
  function KeyAt(key: Byte, memory: seq<Byte>, start: nat, i: nat): Byte
    requires start <= i && 0 < |memory|
  {
    NextKey(StateBefore(key, memory, start, i), i, memory).key
  }

  /** The index is at most at the terminator, whenever the string is not empty. */
  lemma {:induction false} IndexStays(key: Byte, memory: seq<Byte>, length: nat, start: nat, i: nat)
    requires IsString(memory, length) && length > 0 && start <= i
    ensures StateBefore(key, memory, start, i).index <= length
    ensures NextKey(StateBefore(key, memory, start, i), i, memory).index < length
    decreases i, start
  {
    if i > start {
      IndexStays(key, memory, length, start, i - 1);
    }
  }

  lemma NextRemainder(m: nat, r: nat, size: nat)
    requires size > 0 && r == m % size
    ensures (m + 1) % size == if r + 1 == size then 0 else r + 1
  {
    var q := m / size;
    assert m + 1 == size * q + (r + 1);
    if r + 1 == size {
      assert m + 1 == size * (q + 1);
      QuotientUnique(m + 1, size, q + 1, 0);
    } else {
      QuotientUnique(m + 1, size, q, r + 1);
    }
  }

  lemma IndexMoves(key: Byte, memory: seq<Byte>, length: nat, start: nat, i: nat, index: nat)
    requires IsString(memory, length) && length > 0 && start <= i && index < length
    requires NextKey(StateBefore(key, memory, start, i), i, memory).index == index
    ensures NextKey(StateBefore(key, memory, start, i + 1), i + 1, memory).index
         == if index + 1 == length then 0 else index + 1
  {
  }

  /** The index goes around the string. */
  lemma {:induction false} IndexGoesAround(key: Byte, memory: seq<Byte>, length: nat, start: nat, d: nat)
    returns (index: nat)
    requires IsString(memory, length) && length > 0
    ensures NextKey(StateBefore(key, memory, start, start + d), start + d, memory).index == index
    ensures index == d % length < length
    decreases d
  {
    if d == 0 {
      index := 0;
      assert StateBefore(key, memory, start, start) == State(key, 0);
    } else {
      var before := IndexGoesAround(key, memory, length, start, d - 1);
      IndexMoves(key, memory, length, start, start + d - 1, before);
      NextRemainder(d - 1, before, length);
      index := if before + 1 == length then 0 else before + 1;
    }
  }

  /**
   * The key for a position is the one before it, or the first, xored with the next character of the string,
   * over and over again; a '.' stands for a '%' and for what is no character, and on odd positions it is doubled.
   */
  lemma KeyFollows(key: Byte, memory: seq<Byte>, length: nat, start: nat, i: nat)
    requires IsString(memory, length) && length > 0 && start <= i
    ensures 0 <= (i - start) % length < length
    ensures var c := memory[(i - start) % length];
            var ch := if c == 37 || c >= 128 then 46 else c;
            var last := if i == start then key else KeyAt(key, memory, start, i - 1);
            KeyAt(key, memory, start, i) == XorByte(last, if i % 2 == 0 then ch else ch + ch)
  {
    var index := IndexGoesAround(key, memory, length, start, i - start);
  }

  /** For an empty string, it is behind the terminator from the second byte on. */
  lemma IndexPasses(key: Byte, memory: seq<Byte>, start: nat)
    requires IsString(memory, 0) && |memory| > 1
    ensures StateBefore(key, memory, start, start + 1).index == 1
  {
    assert StateBefore(key, memory, start, start) == State(key, 0);
  }

  /** The index never passes the terminator if and only if the string is not empty or there is at most one byte. */
  lemma IndexStaysExactlyWhen(key: Byte, memory: seq<Byte>, length: nat, start: nat, end: nat)
    requires IsString(memory, length) && |memory| > length + 1
    ensures (forall i :: start <= i < end ==> StateBefore(key, memory, start, i).index <= length)
       <==> length > 0 || end <= start + 1
  {
    if length > 0 {
      forall i | start <= i < end
        ensures StateBefore(key, memory, start, i).index <= length
      {
        IndexStays(key, memory, length, start, i);
      }
    } else if end > start + 1 {
      IndexPasses(key, memory, start);
      assert StateBefore(key, memory, start, start + 1).index > length;
    }
  }

  /** The bytes from a position on, each with its key; the ones before stay. */
  ghost predicate Converted(was: seq<Byte>, key: Byte, memory: seq<Byte>, start: nat, now: seq<Byte>) {
    && 0 < |memory| && |now| == |was|
    && (forall i :: 0 <= i < |was| ==>
          now[i] == if i < start then was[i] else XorByte(was[i], KeyAt(key, memory, start, i)))
  }

  /** Converting twice with the same keys from the same position gives the message back. */
  lemma ConvertedTwice(was: seq<Byte>, key: Byte, memory: seq<Byte>, start: nat, once: seq<Byte>, twice: seq<Byte>)
    requires Converted(was, key, memory, start, once) && Converted(once, key, memory, start, twice)
    ensures twice == was
  {
    forall i | 0 <= i < |was|
      ensures twice[i] == was[i]
    {
      if i >= start {
        XorBitsTwice(was[i], KeyAt(key, memory, start, i));
      }
    }
  }

  /** The state of the loop, one position further. */
  method NextIndex(key: Byte, index: nat, i: nat, memory: seq<Byte>, ghost start: nat, ghost first: Byte)
    returns (key': Byte, index': nat)
    requires start <= i && index < |memory| && State(key, index) == StateBefore(first, memory, start, i)
    ensures key' == KeyAt(first, memory, start, i)
    ensures State(key', index') == StateBefore(first, memory, start, i + 1)
  {
    index' := index;
    if memory[index'] == 0 {
      index' := 0;
    }
    var c := memory[index'];
    if c > 127 || c == '%' as int {
      c := '.' as int;
    }
    key' := XorByte(key, c * (if i % 2 == 1 then 2 else 1));
    if index' + 1 < |memory| {
      index' := index' + 1;
    }
  }

  /** XORValues from one stream into another, from the reader's position on. */
  method XORValues(key: Byte, memory: seq<Byte>, input: seq<Byte>, start: nat) returns (output: seq<Byte>)
    requires 0 < |memory| && start <= |input|
    ensures |output| == |input| - start
    ensures Converted(input, key, memory, start, input[..start] + output)
  {
    output := [];
    var k, index: nat := key, 0;
    for i := start to |input|
      invariant State(k, index) == StateBefore(key, memory, start, i)
      invariant |output| == i - start
      invariant forall j :: start <= j < i ==> output[j - start] == XorByte(input[j], KeyAt(key, memory, start, j))
    {
      k, index := NextIndex(k, index, i, memory, start, key);
      output := output + [XorByte(input[i], k)];
    }
  }

  /** XORValues in place. */
  method XORValuesInPlace(key: Byte, memory: seq<Byte>, stream: array<Byte>, start: nat)
    requires 0 < |memory| && start <= stream.Length
    modifies stream
    ensures Converted(old(stream[..]), key, memory, start, stream[..])
  {
    var k, index: nat := key, 0;
    for i := start to stream.Length
      invariant State(k, index) == StateBefore(key, memory, start, i)
      invariant forall j :: 0 <= j < stream.Length ==>
                  stream[j] == if start <= j < i then XorByte(old(stream[j]), KeyAt(key, memory, start, j))
                               else old(stream[j])
    {
      k, index := NextIndex(k, index, i, memory, start, key);
      stream[i] := XorByte(stream[i], k);
    }
  }

  /** Both forms leave the same bytes, and converting these again gives the message back. */
  method ConvertBoth(key: Byte, memory: seq<Byte>, message: seq<Byte>, start: nat)
    returns (output: seq<Byte>, inPlace: seq<Byte>, back: seq<Byte>)
    requires 0 < |memory| && start <= |message|
    ensures Converted(message, key, memory, start, inPlace)
    ensures inPlace == message[..start] + output && back == message
  {
    var stream := new Byte[|message|](i requires 0 <= i < |message| => message[i]);
    assert stream[..] == message;
    output := XORValues(key, memory, message, start);
    XORValuesInPlace(key, memory, stream, start);
    inPlace := stream[..];
    XORValuesInPlace(key, memory, stream, start);
    back := stream[..];
    ConvertedTwice(message, key, memory, start, inPlace, back);
  }
}
