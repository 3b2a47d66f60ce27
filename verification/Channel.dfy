/** The sequenced channel and its fragments (Remote/Channel.cpp). */
module Channel {
  import opened Division
  import opened Words

  const FRAGMENT_SIZE: nat := 1300
  const SHORT_SIZE: nat := 65536
  const FRAGMENT_BIT: nat := 0x8000_0000

  // ---------------------------------------------------------------------------------------------
  // Receiving

  /**
   * A packet, with its header read: the number without the fragment bit, and for a fragment the start and
   * the length that the header declares.
   */
  datatype Packet =
    | Connectionless
    | Whole(num: nat, data: seq<Byte>)
    | Fragment(num: nat, start: nat, length: nat, data: seq<Byte>)

  /** What the channel remembers; the two sequence numbers are 16 bits wide, as the counter of lost packets. */
  datatype State = State(incoming: nat, dropped: nat, fragmentNum: nat, fragments: seq<Byte>)

  const START := State(0, 0, 0, [])

  /**
   * What a call of receive ends in. For a delivery, streamLength is the length of the stream handed to the
   * caller, whose first four bytes are the packet's number.
   */
  datatype Outcome =
    | Outside
    | Ignored
    | BadLength(length: nat)
    | Delivered(num: nat, message: seq<Byte>, streamLength: nat)

  /** Lost packets between the last accepted number and this one. */
  function Gap(num: nat, incoming: nat): nat {
    (num - (incoming + 1)) % SHORT_SIZE
  }

  /** The fragments kept when a fragment with this number arrives. */
  function Kept(s: State, num: nat): seq<Byte> {
    if num == s.fragmentNum then s.fragments else []
  }

  /** The state in which a fragment with this number is looked at. */
  function Renewed(s: State, num: nat): State {
    State(s.incoming, Gap(num, s.incoming), if num == s.fragmentNum then s.fragmentNum else num % SHORT_SIZE,
          Kept(s, num))
  }

  /** The state after one packet. */
  function Next(s: State, p: Packet): State {
    match p
    case Connectionless => s
    case Whole(num, _) =>
      if num < s.incoming then s else s.(incoming := num % SHORT_SIZE, dropped := Gap(num, s.incoming))
    case Fragment(num, start, length, data) =>
      if num < s.incoming then s
      else
        var s := Renewed(s, num);
        if start != |s.fragments| || length > |data| then s
        else if length == FRAGMENT_SIZE then s.(fragments := s.fragments + data[..length])
        else s.(incoming := num % SHORT_SIZE, fragments := [])
  }

  /** What receive says of one packet. */
  function Result(s: State, p: Packet): Outcome {
    match p
    case Connectionless => Outside
    case Whole(num, data) => if num < s.incoming then Ignored else Delivered(num, data, 4 + |data|)
    case Fragment(num, start, length, data) =>
      var kept := Kept(s, num);
      if num < s.incoming || start != |kept| then Ignored
      else if length > |data| then BadLength(length)
      else if length == FRAGMENT_SIZE then Ignored
      else
        var all := kept + data[..length];
        Delivered(num, all, if 4 + |all| < 10 + |data| then 10 + |data| else 4 + |all|)
  }

  /** One packet received: the new state and the outcome. */
  function Step(s: State, p: Packet): (State, Outcome) {
    (Next(s, p), Result(s, p))
  }

  /** The state after a list of packets. */
  function After(s: State, packets: seq<Packet>): State {
    if packets == [] then s else Next(After(s, packets[..|packets| - 1]), packets[|packets| - 1])
  }

  /** What the packet at place i of the list led to. */
  function OutcomeAt(s: State, packets: seq<Packet>, i: nat): Outcome
    requires i < |packets|
  {
    Result(After(s, packets[..i]), packets[i])
  }

  // ---------------------------------------------------------------------------------------------
  // Datagrams

  const NO_SEQUENCE: nat := 0xFFFF_FFFF
  const LONG_SIZE: nat := 0x1_0000_0000

  /** A 16-bit and a 32-bit number, lowest byte first. */
  function ShortBytes(n: nat): (b: seq<Byte>)
    requires n < SHORT_SIZE
    ensures |b| == 2
  {
    [n % 256, n / 256]
  }

  function LongBytes(n: nat): (b: seq<Byte>)
    requires n < LONG_SIZE
    ensures |b| == 4
  {
    ShortBytes(n % SHORT_SIZE) + ShortBytes(n / SHORT_SIZE)
  }

  function ShortAt(d: seq<Byte>, i: nat): (n: nat)
    requires i + 2 <= |d|
    ensures n < SHORT_SIZE
  {
    d[i] as int + 256 * d[i + 1] as int
  }

  function LongAt(d: seq<Byte>, i: nat): (n: nat)
    requires i + 4 <= |d|
    ensures n < LONG_SIZE
  {
    ShortAt(d, i) + SHORT_SIZE * ShortAt(d, i + 2)
  }

  /** The datagram is as long as the header that its number announces. */
  predicate HasHeader(d: seq<Byte>) {
    |d| >= 4 && (FRAGMENT_BIT <= LongAt(d, 0) < NO_SEQUENCE ==> |d| >= 10)
  }

  /** What receive reads of a datagram: the number and, for a fragment, the start and the length, but no port. */
  function Read(d: seq<Byte>): Packet
    requires HasHeader(d)
  {
    var num := LongAt(d, 0);
    if num == NO_SEQUENCE then Connectionless
    else if num < FRAGMENT_BIT then Whole(num, d[4..])
    else Fragment(num - FRAGMENT_BIT, LongAt(d, 4), ShortAt(d, 8), d[10..])
  }

  /** The packet's numbers fit into its header. */
  predicate Fits(p: Packet) {
    match p
    case Connectionless => true
    case Whole(num, _) => num < FRAGMENT_BIT
    case Fragment(num, start, length, _) => num < FRAGMENT_BIT && start < LONG_SIZE && length < SHORT_SIZE
  }

  /** A packet as a server sends it. */
  function FromServer(p: Packet): (d: seq<Byte>)
    requires Fits(p)
    ensures |d| >= 4
  {
    match p
    case Connectionless => LongBytes(NO_SEQUENCE)
    case Whole(num, data) => LongBytes(num) + data
    case Fragment(num, start, length, data) =>
      LongBytes(num + FRAGMENT_BIT) + LongBytes(start) + ShortBytes(length) + data
  }

  /** A packet as transmit sends it: the port of the client stands behind the number. */
  function FromClient(port: nat, p: Packet): seq<Byte>
    requires port < SHORT_SIZE && Fits(p)
  {
    FromServer(p)[..4] + ShortBytes(port) + FromServer(p)[4..]
  }

  /** What a receiver that skips the port, as a server does, reads of a datagram of transmit. */
  function WithoutPort(d: seq<Byte>): seq<Byte>
    requires |d| >= 6
  {
    d[..4] + d[6..]
  }

  /** The largest number with the fragment bit looks like no number at all. */
  predicate Hidden(p: Packet) {
    p.Fragment? && p.num + FRAGMENT_BIT == NO_SEQUENCE
  }

  lemma LongBack(n: nat, d: seq<Byte>, i: nat)
    requires n < LONG_SIZE && i + 4 <= |d| && d[i..i + 4] == LongBytes(n)
    ensures LongAt(d, i) == n
  {
    assert d[i..i + 4][0] == d[i] && d[i..i + 4][1] == d[i + 1];
    assert d[i..i + 4][2] == d[i + 2] && d[i..i + 4][3] == d[i + 3];
  }

  lemma ShortBack(n: nat, d: seq<Byte>, i: nat)
    requires n < SHORT_SIZE && i + 2 <= |d| && d[i..i + 2] == ShortBytes(n)
    ensures ShortAt(d, i) == n
  {
    assert d[i..i + 2][0] == d[i] && d[i..i + 2][1] == d[i + 1];
  }

  /** A number of the wire has its lowest byte first. */
  lemma LowestFirst(d: seq<Byte>, i: nat)
    requires i + 4 <= |d|
    ensures ShortAt(d, i) == d[i] as int + 0x100 * d[i + 1] as int
    ensures LongAt(d, i) % 0x100 == d[i] && LongAt(d, i) / 0x100 % 0x100 == d[i + 1]
    ensures LongAt(d, i) / 0x1_0000 % 0x100 == d[i + 2] && LongAt(d, i) / 0x100_0000 == d[i + 3]
  {
    BytesOfSum(d[i], d[i + 1], d[i + 2], d[i + 3]);
  }

  /** Reading gives back what a server writes. */
  lemma ServerReadBack(p: Packet)
    requires Fits(p)
    ensures HasHeader(FromServer(p))
    ensures Read(FromServer(p)) == if Hidden(p) then Connectionless else p
  {
    var d := FromServer(p);
    match p {
      case Connectionless => LongBack(NO_SEQUENCE, d, 0);
      case Whole(num, data) =>
        LongBack(num, d, 0);
        assert d[4..] == data;
      case Fragment(num, start, length, data) =>
        LongBack(num + FRAGMENT_BIT, d, 0);
        LongBack(start, d, 4);
        ShortBack(length, d, 8);
        assert d[10..] == data;
    }
  }

  /** A receiver that skips the port reads back what transmit writes. */
  lemma ClientReadBack(port: nat, p: Packet)
    requires port < SHORT_SIZE && Fits(p)
    ensures WithoutPort(FromClient(port, p)) == FromServer(p)
    ensures HasHeader(FromServer(p))
    ensures Read(FromServer(p)) == if Hidden(p) then Connectionless else p
  {
    ServerReadBack(p);
    assert FromServer(p)[..4] + FromServer(p)[4..] == FromServer(p);
  }

  /**
   * What receive takes a packet of transmit for: it reads no port, which becomes the first bytes of a whole
   * packet. In a fragment with a 16-bit start, the port becomes the low half of the start, the start its high
   * half, the length 0, and the written length the first bytes.
   */
  function Misread(port: nat, p: Packet): Packet
    requires port < SHORT_SIZE && Fits(p)
  {
    match p
    case Connectionless => p
    case Whole(num, data) => Whole(num, ShortBytes(port) + data)
    case Fragment(num, start, length, data) =>
      Fragment(num, port + SHORT_SIZE * start, 0, ShortBytes(length) + data)
  }

  lemma Halves(low: nat, high: nat)
    requires low < SHORT_SIZE && high < SHORT_SIZE
    ensures low + SHORT_SIZE * high < LONG_SIZE
    ensures LongBytes(low + SHORT_SIZE * high) == ShortBytes(low) + ShortBytes(high)
  {
    QuotientUnique(low + SHORT_SIZE * high, SHORT_SIZE, high, low);
  }

  lemma Inserted(a: seq<Byte>, b: seq<Byte>, x: seq<Byte>)
    requires |a| == 4
    ensures (a + b)[..4] + x + (a + b)[4..] == a + x + b
  {
    assert (a + b)[..4] == a && (a + b)[4..] == b;
  }

  lemma Regrouped(a: seq<Byte>, p: seq<Byte>, s: seq<Byte>, z: seq<Byte>, l: seq<Byte>, d: seq<Byte>)
    ensures a + p + ((s + z) + l + d) == a + (p + s) + z + (l + d)
  {
  }

  lemma WholeFromClient(port: nat, num: nat, data: seq<Byte>)
    requires port < SHORT_SIZE && num < FRAGMENT_BIT
    ensures FromClient(port, Whole(num, data)) == LongBytes(num) + ShortBytes(port) + data
  {
    Inserted(LongBytes(num), data, ShortBytes(port));
  }

  lemma FragmentFromClient(port: nat, num: nat, start: nat, length: nat, data: seq<Byte>)
    requires port < SHORT_SIZE && Fits(Fragment(num, start, length, data))
    ensures FromClient(port, Fragment(num, start, length, data))
         == LongBytes(num + FRAGMENT_BIT) + ShortBytes(port) + (LongBytes(start) + ShortBytes(length) + data)
  {
    var a, b := LongBytes(num + FRAGMENT_BIT), LongBytes(start) + ShortBytes(length) + data;
    assert FromServer(Fragment(num, start, length, data)) == a + b;
    Inserted(a, b, ShortBytes(port));
  }

  /** With the port behind the number, the datagram is the one of another packet. */
  lemma FromAnother(port: nat, p: Packet)
    requires port < SHORT_SIZE && Fits(p) && !p.Connectionless? && (p.Fragment? ==> p.start < SHORT_SIZE)
    ensures Fits(Misread(port, p)) && FromClient(port, p) == FromServer(Misread(port, p))
  {
    match p {
      case Connectionless =>
      case Whole(num, data) =>
        WholeFromClient(port, num, data);
        assert LongBytes(num) + ShortBytes(port) + data == LongBytes(num) + (ShortBytes(port) + data);
      case Fragment(num, start, length, data) =>
        FragmentFromAnother(port, num, start, length, data);
    }
  }

  lemma FragmentFromAnother(port: nat, num: nat, start: nat, length: nat, data: seq<Byte>)
    requires port < SHORT_SIZE && start < SHORT_SIZE && Fits(Fragment(num, start, length, data))
    ensures var p := Fragment(num, start, length, data);
            Fits(Misread(port, p)) && FromClient(port, p) == FromServer(Misread(port, p))
  {
    Halves(port, start);
    Halves(start, 0);
    FragmentFromClient(port, num, start, length, data);
    Regrouped(LongBytes(num + FRAGMENT_BIT), ShortBytes(port), ShortBytes(start), ShortBytes(0), ShortBytes(length),
              data);
  }

  lemma PortMisread(port: nat, p: Packet)
    requires port < SHORT_SIZE && Fits(p) && !p.Connectionless? && (p.Fragment? ==> p.start < SHORT_SIZE)
    ensures HasHeader(FromClient(port, p))
    ensures Read(FromClient(port, p)) == if Hidden(p) then Connectionless else Misread(port, p)
  {
    FromAnother(port, p);
    ServerReadBack(Misread(port, p));
  }

  class Netchan {
    const qport: nat
    var incomingSequence: nat
    var outgoingSequence: nat
    var dropped: nat
    var fragmentSequence: nat
    var fragmentStream: seq<Byte>

    function Now(): State
      reads this
    {
      State(incomingSequence, dropped, fragmentSequence, fragmentStream)
    }

    constructor (port: nat)
      ensures Now() == START && outgoingSequence == 1 && qport == port
    {
      qport := port;
      incomingSequence, outgoingSequence, dropped, fragmentSequence, fragmentStream := 0, 1, 0, 0, [];
    }

    /** receive, for a datagram that holds its header. */
    method Receive(datagram: seq<Byte>) returns (outcome: Outcome)
      requires HasHeader(datagram)
      modifies this
      ensures (Now(), outcome) == Step(old(Now()), Read(datagram))
      ensures outgoingSequence == old(outgoingSequence)
    {
      var sequenceNum, position: nat := LongAt(datagram, 0), 4;
      if sequenceNum == NO_SEQUENCE {
        return Outside;
      }
      var fragmented := sequenceNum >= FRAGMENT_BIT;
      var fragmentStart: nat, fragmentLength: nat := 0, 0;
      if fragmented {
        sequenceNum := sequenceNum - FRAGMENT_BIT;
        fragmentStart, fragmentLength, position := LongAt(datagram, 4), ShortAt(datagram, 8), 10;
      }
      if sequenceNum < incomingSequence {
        return Ignored;
      }
      dropped := Gap(sequenceNum, incomingSequence);
      if fragmented {
        if sequenceNum != fragmentSequence {
          fragmentSequence := sequenceNum % SHORT_SIZE;
          fragmentStream := [];
        }
        if fragmentStart != |fragmentStream| {
          return Ignored;
        }
        if position + fragmentLength > |datagram| {
          return BadLength(fragmentLength);
        }
        assert datagram[position..][..fragmentLength] == datagram[position..position + fragmentLength];
        fragmentStream := fragmentStream + datagram[position..position + fragmentLength];
        if fragmentLength == FRAGMENT_SIZE {
          return Ignored;
        }
        var streamLength := |datagram|;
        if 4 + |fragmentStream| > streamLength {
          streamLength := 4 + |fragmentStream|;
        }
        outcome := Delivered(sequenceNum, fragmentStream, streamLength);
        fragmentStream := [];
      } else {
        outcome := Delivered(sequenceNum, datagram[position..], |datagram|);
      }
      incomingSequence := sequenceNum % SHORT_SIZE;
    }

    /** transmit: the datagrams that a message leaves in. */
    method Transmit(message: seq<Byte>) returns (datagrams: seq<seq<Byte>>)
      requires outgoingSequence < FRAGMENT_BIT && qport < SHORT_SIZE
      modifies this`outgoingSequence
      ensures SentFits(old(outgoingSequence), message)
      ensures datagrams == Datagrams(qport, Sent(old(outgoingSequence), message))
      ensures outgoingSequence == old(outgoingSequence) + 1
    {
      SentInRange(outgoingSequence, message);
      if |message| < FRAGMENT_SIZE {
        var header := LongBytes(outgoingSequence) + ShortBytes(qport);
        WholeFromClient(qport, outgoingSequence, message);
        datagrams := [header + message];
      } else {
        datagrams := Cut(qport, outgoingSequence, message);
      }
      outgoingSequence := outgoingSequence + 1;
    }
  }

  /** The datagrams of a list of packets. */
  function Datagrams(port: nat, packets: seq<Packet>): (ds: seq<seq<Byte>>)
    requires port < SHORT_SIZE && forall k :: 0 <= k < |packets| ==> Fits(packets[k])
    ensures |ds| == |packets|
    ensures forall k :: 0 <= k < |ds| ==> ds[k] == FromClient(port, packets[k])
  {
    seq(|packets|, k requires 0 <= k < |packets| => FromClient(port, packets[k]))
  }

  predicate SentFits(num: nat, message: seq<Byte>) {
    forall k :: 0 <= k < |Sent(num, message)| ==> Fits(Sent(num, message)[k])
  }

  ghost predicate AreFrom(datagrams: seq<seq<Byte>>, port: nat, packets: seq<Packet>)
    requires port < SHORT_SIZE
  {
    && |datagrams| == |packets|
    && (forall k :: 0 <= k < |packets| ==> Fits(packets[k]) && datagrams[k] == FromClient(port, packets[k]))
  }

  lemma OneMoreFrom(datagrams: seq<seq<Byte>>, port: nat, packets: seq<Packet>, datagram: seq<Byte>, packet: Packet)
    requires port < SHORT_SIZE && AreFrom(datagrams, port, packets)
    requires Fits(packet) && datagram == FromClient(port, packet)
    ensures AreFrom(datagrams + [datagram], port, packets + [packet])
  {
  }

  /** The loop over transmitNextFragment, for the message numbered num. */
  method Cut(port: nat, num: nat, message: seq<Byte>) returns (datagrams: seq<seq<Byte>>)
    requires |message| >= FRAGMENT_SIZE && num < FRAGMENT_BIT && port < SHORT_SIZE
    ensures SentFits(num, message)
    ensures datagrams == Datagrams(port, Sent(num, message))
  {
    SentInRange(num, message);
    var unsentStart: nat, unsentLength: nat := 0, |message| % SHORT_SIZE;
    ghost var sent := message[..unsentLength];
    ghost var packets, target := [], Sent(num, message);
    datagrams := [];
    var unsent := true;
    assert [] + RestOf(num, sent, 0, true) == target;
    while unsent
      invariant unsentStart <= unsentLength == |sent|
      invariant packets + RestOf(num, sent, unsentStart, unsent) == target
      invariant AreFrom(datagrams, port, packets)
      decreases unsent, unsentLength - unsentStart
    {
      var fragmentLength: nat := FRAGMENT_SIZE;
      if unsentStart + fragmentLength > unsentLength {
        fragmentLength := unsentLength - unsentStart;
      }
      var datagram, packet := CutPacket(port, num, message, unsentStart, unsentLength, fragmentLength);
      NextPacket(packets, num, sent, unsentStart, packet);
      OneMoreFrom(datagrams, port, packets, datagram, packet);
      packets, datagrams := packets + [packet], datagrams + [datagram];
      unsentStart := unsentStart + fragmentLength;
      if unsentStart == unsentLength && fragmentLength != FRAGMENT_SIZE {
        unsent := false;
      }
    }
  }

  /** transmitNextFragment's datagram, with the length of the whole message where the fragment's belongs. */
  method CutPacket(port: nat, num: nat, message: seq<Byte>, start: nat, total: nat, length: nat)
    returns (datagram: seq<Byte>, ghost packet: Packet)
    requires start + length <= total <= |message| && total < SHORT_SIZE && num < FRAGMENT_BIT && port < SHORT_SIZE
    requires length == if total - start < FRAGMENT_SIZE then total - start else FRAGMENT_SIZE
    ensures packet == Fragment(num, start, total, Cutting(message[..total], start))
    ensures Fits(packet) && datagram == FromClient(port, packet)
  {
    packet := Fragment(num, start, total, message[start..start + length]);
    assert message[..total][start..start + length] == message[start..start + length];
    datagram := LongBytes(num + FRAGMENT_BIT) + ShortBytes(port)
                + (LongBytes(start) + ShortBytes(total) + message[start..start + length]);
    FragmentFromClient(port, num, start, total, message[start..start + length]);
  }

  // ---------------------------------------------------------------------------------------------
  // The fragments of a message

  /** Where the k-th fragment starts. */
  function Offset(k: nat): nat {
    1300 * k
  }

  predicate Aligned(n: nat) {
    n % 1300 == 0
  }

  /** The bytes of a message from a start on, as many as one fragment takes. */
  function Cutting(message: seq<Byte>, start: nat): seq<Byte>
    requires start <= |message|
  {
    if |message| - start < FRAGMENT_SIZE then message[start..] else message[start..start + FRAGMENT_SIZE]
  }

  /** The fragment of a message that starts there. */
  function Chunk(num: nat, message: seq<Byte>, start: nat): Packet
    requires start <= |message|
  {
    var data := Cutting(message, start);
    Fragment(num, start, |data|, data)
  }

  /** The fragments from a start on; the last one is shorter than the fragment size, and may be empty. */
  function ChunksFrom(num: nat, message: seq<Byte>, start: nat): seq<Packet>
    requires start <= |message|
    decreases |message| - start
  {
    [Chunk(num, message, start)]
    + if |message| - start < FRAGMENT_SIZE then [] else ChunksFrom(num, message, start + FRAGMENT_SIZE)
  }

  /** The same packets with another length in the header of the fragments. */
  function Mislabelled(packets: seq<Packet>, length: nat): (r: seq<Packet>)
    ensures |r| == |packets|
  {
    seq(|packets|, i requires 0 <= i < |packets| =>
        if packets[i].Fragment? then packets[i].(length := length) else packets[i])
  }

  /** A fragment of the message numbered num. */
  ghost predicate IsChunk(p: Packet, num: nat, message: seq<Byte>) {
    p.Fragment? && Aligned(p.start) && p.start <= |message| && p == Chunk(num, message, p.start)
  }

  /** The k-th of the fragments from a start on; the last one is the one that is shorter than the fragment size. */
  lemma ChunkAt(num: nat, message: seq<Byte>, start: nat, k: nat)
    requires start <= |message|
    requires k < |ChunksFrom(num, message, start)|
    ensures start + Offset(k) <= |message|
    ensures ChunksFrom(num, message, start)[k] == Chunk(num, message, start + Offset(k))
    ensures k == |ChunksFrom(num, message, start)| - 1 <==> |message| - (start + Offset(k)) < FRAGMENT_SIZE
  {
    ChunkIs(num, message, start, k, start + Offset(k));
  }

  lemma {:induction false} ChunkIs(num: nat, message: seq<Byte>, start: nat, k: nat, at: nat)
    requires start <= |message| && at == start + Offset(k)
    requires k < |ChunksFrom(num, message, start)|
    ensures at <= |message| && ChunksFrom(num, message, start)[k] == Chunk(num, message, at)
    ensures k == |ChunksFrom(num, message, start)| - 1 <==> |message| - at < FRAGMENT_SIZE
    decreases k
  {
    if k > 0 {
      var rest := ChunksFrom(num, message, start + FRAGMENT_SIZE);
      assert ChunksFrom(num, message, start) == [Chunk(num, message, start)] + rest;
      ChunkIs(num, message, start + FRAGMENT_SIZE, k - 1, at);
    }
  }

  /** The packets of a message: whole, or in fragments whose headers all hold the 16-bit length of the message. */
  function Sent(num: nat, message: seq<Byte>): seq<Packet> {
    var length := |message| % SHORT_SIZE;
    if |message| < FRAGMENT_SIZE then [Whole(num, message)]
    else Mislabelled(ChunksFrom(num, message[..length], 0), length)
  }

  lemma MislabelledAt(num: nat, message: seq<Byte>, length: nat, k: nat)
    requires k < |ChunksFrom(num, message, 0)|
    ensures Offset(k) <= |message|
    ensures Mislabelled(ChunksFrom(num, message, 0), length)[k]
         == Fragment(num, Offset(k), length, Cutting(message, Offset(k)))
  {
    ChunkAt(num, message, 0, k);
  }

  /** The k-th fragment of transmit. */
  lemma SentAt(num: nat, message: seq<Byte>, k: nat)
    requires |message| >= FRAGMENT_SIZE && k < |Sent(num, message)|
    ensures var length := |message| % SHORT_SIZE;
            && Offset(k) <= length <= |message|
            && Sent(num, message)[k] == Fragment(num, Offset(k), length, Cutting(message[..length], Offset(k)))
  {
    var length := |message| % SHORT_SIZE;
    var sent := message[..length];
    MislabelledAt(num, sent, length, k);
  }

  lemma SentInRange(num: nat, message: seq<Byte>)
    requires num < FRAGMENT_BIT
    ensures SentFits(num, message)
  {
    if |message| >= FRAGMENT_SIZE {
      forall k | 0 <= k < |Sent(num, message)|
        ensures Fits(Sent(num, message)[k])
      {
        SentAt(num, message, k);
      }
    }
  }

  /** The packets that the cut loop sends from a start on, when there are more to send. */
  function RestOf(num: nat, message: seq<Byte>, start: nat, unsent: bool): seq<Packet>
    requires start <= |message|
  {
    if unsent then Mislabelled(ChunksFrom(num, message, start), |message|) else []
  }

  /** The packet that the cut loop sends from a start, and the ones after it. */
  lemma NextPacket(packets: seq<Packet>, num: nat, message: seq<Byte>, start: nat, packet: Packet)
    requires start <= |message| && packet == Fragment(num, start, |message|, Cutting(message, start))
    ensures packets + RestOf(num, message, start, true)
         == (packets + [packet])
            + if |message| - start < FRAGMENT_SIZE then RestOf(num, message, |message|, false)
              else RestOf(num, message, start + FRAGMENT_SIZE, true)
  {
    var rest := if |message| - start < FRAGMENT_SIZE then [] else ChunksFrom(num, message, start + FRAGMENT_SIZE);
    MislabelledFirst(Chunk(num, message, start), rest, |message|, packet);
    assert packets + ([packet] + Mislabelled(rest, |message|)) == packets + [packet] + Mislabelled(rest, |message|);
  }

  lemma MislabelledFirst(chunk: Packet, rest: seq<Packet>, length: nat, packet: Packet)
    requires chunk.Fragment? && packet == chunk.(length := length)
    ensures Mislabelled([chunk] + rest, length) == [packet] + Mislabelled(rest, length)
  {
  }

  ghost predicate AreChunks(packets: seq<Packet>, num: nat, message: seq<Byte>) {
    forall k :: 0 <= k < |packets| ==> IsChunk(packets[k], num, message)
  }

  lemma ChunkInPlace(num: nat, message: seq<Byte>, k: nat)
    requires k < |ChunksFrom(num, message, 0)|
    ensures Offset(k) <= |message| && Aligned(Offset(k))
    ensures ChunksFrom(num, message, 0)[k] == Chunk(num, message, Offset(k))
  {
    ChunkAt(num, message, 0, k);
  }

  lemma ChunksInPlace(num: nat, message: seq<Byte>)
    ensures var chunks := ChunksFrom(num, message, 0);
            AreChunks(chunks, num, message) && Places(chunks, Identity(|chunks|), num, message)
  {
    var chunks := ChunksFrom(num, message, 0);
    forall k | 0 <= k < |chunks|
      ensures Offset(k) <= |message| && Aligned(Offset(k)) && chunks[k] == Chunk(num, message, Offset(k))
    {
      ChunkInPlace(num, message, k);
    }
  }

  /** The bytes of a list of packets, one behind the other. */
  function Bytes(packets: seq<Packet>): seq<Byte> {
    if packets == [] then []
    else (if packets[0].Connectionless? then [] else packets[0].data) + Bytes(packets[1..])
  }

  /** The fragments tile the message, for every length. */
  lemma {:induction false} ChunksTile(num: nat, message: seq<Byte>, start: nat)
    requires start <= |message|
    ensures Bytes(ChunksFrom(num, message, start)) == message[start..]
    decreases |message| - start
  {
    var chunks := ChunksFrom(num, message, start);
    if |message| - start >= FRAGMENT_SIZE {
      ChunksTile(num, message, start + FRAGMENT_SIZE);
      assert chunks[1..] == ChunksFrom(num, message, start + FRAGMENT_SIZE);
    } else {
      assert Bytes(chunks[1..]) == [];
    }
  }

  // ---------------------------------------------------------------------------------------------
  // Runs over a network that loses, repeats and reorders

  /** A packet of some message that was sent: the message itself when it is short, or a fragment of it. */
  ghost predicate Genuine(p: Packet, sent: nat -> seq<Byte>) {
    match p
    case Connectionless => true
    case Whole(num, data) => data == sent(num) && |data| < FRAGMENT_SIZE
    case Fragment(num, _, _, _) => |sent(num)| >= FRAGMENT_SIZE && IsChunk(p, num, sent(num))
  }

  /** The kept fragments are the beginning of the message that they belong to. */
  ghost predicate Sound(s: State, sent: nat -> seq<Byte>) {
    s.fragments <= sent(s.fragmentNum) && Aligned(|s.fragments|)
  }

  /** A beginning of a message with the fragment behind it is a longer beginning. */
  lemma KeptGrows(kept: seq<Byte>, p: Packet, message: seq<Byte>)
    requires p.Fragment? && IsChunk(p, p.num, message) && kept <= message && |kept| == p.start
    ensures p.data[..p.length] == p.data && kept + p.data == message[..p.start + p.length]
    ensures p.length != FRAGMENT_SIZE ==> kept + p.data == message
  {
    assert message[..p.start + p.length] == message[..p.start] + message[p.start..p.start + p.length];
  }

  /** A delivery hands over exactly one sent message, and no length is refused. */
  ghost predicate Faithful(outcome: Outcome, sent: nat -> seq<Byte>) {
    && !outcome.BadLength?
    && (outcome.Delivered? ==>
          outcome == Delivered(outcome.num, sent(outcome.num), 4 + |sent(outcome.num)|))
  }

  ghost predicate Expected(p: Packet, sent: nat -> seq<Byte>) {
    Genuine(p, sent) && (!p.Connectionless? ==> p.num < SHORT_SIZE)
  }

  /** One packet of a message with a 16-bit number. */
  lemma StepSound(s: State, p: Packet, sent: nat -> seq<Byte>)
    requires Sound(s, sent) && Expected(p, sent)
    ensures Sound(Next(s, p), sent)
    ensures Next(s, p).incoming >= s.incoming
    ensures Faithful(Result(s, p), sent)
    ensures Result(s, p).Delivered? ==> Result(s, p).num == p.num == Next(s, p).incoming
  {
    if p.Fragment? && p.num >= s.incoming && p.start == |Kept(s, p.num)| {
      KeptGrows(Kept(s, p.num), p, sent(p.num));
    }
  }

  lemma {:induction false} SoundAfter(packets: seq<Packet>, i: nat, sent: nat -> seq<Byte>)
    requires forall k :: 0 <= k < |packets| ==> Expected(packets[k], sent)
    requires i <= |packets|
    ensures Sound(After(START, packets[..i]), sent)
  {
    if i > 0 {
      SoundAfter(packets, i - 1, sent);
      assert packets[..i][..i - 1] == packets[..i - 1];
      StepSound(After(START, packets[..i - 1]), packets[i - 1], sent);
    }
  }

  lemma {:induction false} NeverFalls(packets: seq<Packet>, i: nat, j: nat, sent: nat -> seq<Byte>)
    requires forall k :: 0 <= k < |packets| ==> Expected(packets[k], sent)
    requires i <= j <= |packets|
    ensures After(START, packets[..i]).incoming <= After(START, packets[..j]).incoming
    decreases j
  {
    if i < j {
      NeverFalls(packets, i, j - 1, sent);
      SoundAfter(packets, j - 1, sent);
      assert packets[..j][..j - 1] == packets[..j - 1];
      StepSound(After(START, packets[..j - 1]), packets[j - 1], sent);
    }
  }

  /**
   * Over every run of packets of sent messages with 16-bit numbers, however many are lost, repeated or out of
   * order: the kept fragments are a beginning of their message, every delivery is one whole message and
   * nothing else, and the last accepted number never falls.
   */
  lemma Reassembly(packets: seq<Packet>, sent: nat -> seq<Byte>)
    requires forall k :: 0 <= k < |packets| ==> Expected(packets[k], sent)
    ensures forall i :: 0 <= i <= |packets| ==> Sound(After(START, packets[..i]), sent)
    ensures forall i :: 0 <= i < |packets| ==> Faithful(OutcomeAt(START, packets, i), sent)
    ensures forall i, j :: 0 <= i <= j <= |packets| ==>
              After(START, packets[..i]).incoming <= After(START, packets[..j]).incoming
  {
    forall i | 0 <= i <= |packets|
      ensures Sound(After(START, packets[..i]), sent)
    {
      SoundAfter(packets, i, sent);
    }
    forall i | 0 <= i < |packets|
      ensures Faithful(OutcomeAt(START, packets, i), sent)
    {
      StepSound(After(START, packets[..i]), packets[i], sent);
    }
    forall i, j | 0 <= i <= j <= |packets|
      ensures After(START, packets[..i]).incoming <= After(START, packets[..j]).incoming
    {
      NeverFalls(packets, i, j, sent);
    }
  }

  /**
   * Packets among which a message's own fragments get through: its own, whole packets up to its number,
   * packets older than the last accepted one, and ones outside.
   */
  ghost predicate Undisturbed(p: Packet, num: nat, message: seq<Byte>, incoming: nat) {
    p.Connectionless? || p.num < incoming || (p.Whole? && p.num <= num) || IsChunk(p, num, message)
  }

  /** All the packets are, when they arrive. */
  ghost predicate AllUndisturbed(s: State, packets: seq<Packet>, num: nat, message: seq<Byte>) {
    forall k :: 0 <= k < |packets| ==> Undisturbed(packets[k], num, message, After(s, packets[..k]).incoming)
  }

  /** In the middle of a message: every byte up to held is kept. */
  ghost predicate Holding(s: State, num: nat, message: seq<Byte>, held: nat) {
    && s.incoming <= num && Aligned(held)
    && Kept(s, num) <= message && Aligned(|Kept(s, num)|)
    && held <= |Kept(s, num)|
  }

  ghost predicate IsDelivery(outcome: Outcome, num: nat, message: seq<Byte>) {
    outcome.Delivered? && outcome.num == num && outcome.message == message
  }

  lemma StepHolds(s: State, p: Packet, s': State, num: nat, message: seq<Byte>, held: nat)
    requires Holding(s, num, message, held) && Undisturbed(p, num, message, s.incoming) && num < SHORT_SIZE
    requires s' == Next(s, p)
    ensures IsDelivery(Result(s, p), num, message) || Holding(s', num, message, held)
  {
    if IsChunk(p, num, message) && p.num >= s.incoming {
      if p.start == |Kept(s, num)| {
        KeptGrows(Kept(s, num), p, message);
      }
    }
  }

  lemma StepHoldsMore(s: State, p: Packet, s': State, num: nat, message: seq<Byte>, held: nat)
    requires Holding(s, num, message, held) && num < SHORT_SIZE && p == Chunk(num, message, held)
    requires s' == Next(s, p)
    ensures IsDelivery(Result(s, p), num, message) || Holding(s', num, message, held + FRAGMENT_SIZE)
  {
    if p.start == |Kept(s, num)| {
      KeptGrows(Kept(s, num), p, message);
    }
  }

  lemma AfterOne(s: State, packets: seq<Packet>, i: nat)
    requires i < |packets|
    ensures After(s, packets[..i + 1]) == Next(After(s, packets[..i]), packets[i])
  {
    assert packets[..i + 1][..i] == packets[..i];
  }

  ghost predicate DeliveredIn(s: State, packets: seq<Packet>, num: nat, message: seq<Byte>) {
    exists k :: 0 <= k < |packets| && IsDelivery(OutcomeAt(s, packets, k), num, message)
  }

  /** The places in a list of packets of the first fragments of a message, in order. */
  ghost predicate Places(packets: seq<Packet>, picks: seq<nat>, num: nat, message: seq<Byte>) {
    && (forall j, k :: 0 <= j < k < |picks| ==> picks[j] < picks[k])
    && (forall j :: 0 <= j < |picks| ==>
          picks[j] < |packets| && Offset(j) <= |message| && packets[picks[j]] == Chunk(num, message, Offset(j)))
  }

  ghost predicate HoldingAfter(s: State, packets: seq<Packet>, i: nat, num: nat, message: seq<Byte>, held: nat)
    requires i <= |packets|
  {
    Holding(After(s, packets[..i]), num, message, held)
  }

  /** As long as the message is not delivered, the first j fragments that were picked are kept. */
  lemma {:induction false} HeldAfter(s: State, packets: seq<Packet>, picks: seq<nat>, num: nat, message: seq<Byte>,
                                     j: nat, i: nat, held: nat)
    requires Holding(s, num, message, 0) && num < SHORT_SIZE
    requires AllUndisturbed(s, packets, num, message)
    requires Places(packets, picks, num, message)
    requires i <= |packets| && j <= |picks| && (j > 0 ==> picks[j - 1] < i) && held == Offset(j)
    requires !DeliveredIn(s, packets, num, message)
    ensures HoldingAfter(s, packets, i, num, message, held)
    decreases i
  {
    if i == 0 {
      assert packets[..i] == [];
    } else if j > 0 && picks[j - 1] == i - 1 {
      HeldAfter(s, packets, picks, num, message, j - 1, i - 1, held - FRAGMENT_SIZE);
      HeldStep(s, packets, i, num, message, held - FRAGMENT_SIZE, true);
    } else {
      HeldAfter(s, packets, picks, num, message, j, i - 1, held);
      HeldStep(s, packets, i, num, message, held, false);
    }
  }

  lemma HeldStep(s: State, packets: seq<Packet>, i: nat, num: nat, message: seq<Byte>, held: nat, taken: bool)
    requires 0 < i <= |packets| && num < SHORT_SIZE
    requires AllUndisturbed(s, packets, num, message) && !DeliveredIn(s, packets, num, message)
    requires HoldingAfter(s, packets, i - 1, num, message, held)
    requires taken ==> packets[i - 1] == Chunk(num, message, held)
    ensures HoldingAfter(s, packets, i, num, message, if taken then held + FRAGMENT_SIZE else held)
  {
    AfterOne(s, packets, i - 1);
    assert !IsDelivery(OutcomeAt(s, packets, i - 1), num, message);
    var now, next := After(s, packets[..i - 1]), After(s, packets[..i]);
    if taken {
      StepHoldsMore(now, packets[i - 1], next, num, message, held);
    } else {
      StepHolds(now, packets[i - 1], next, num, message, held);
    }
  }

  /**
   * A message whose fragments all arrive in order is delivered, whatever repeated fragments of it, whole
   * packets sent before it and outdated packets arrive in between. The message may have any length, multiples
   * of the fragment size included.
   */
  lemma GetsThrough(s: State, packets: seq<Packet>, picks: seq<nat>, num: nat, message: seq<Byte>)
    requires Holding(s, num, message, 0) && num < SHORT_SIZE
    requires AllUndisturbed(s, packets, num, message)
    requires Places(packets, picks, num, message) && |picks| == |ChunksFrom(num, message, 0)|
    ensures DeliveredIn(s, packets, num, message)
  {
    if !DeliveredIn(s, packets, num, message) {
      ChunkAt(num, message, 0, |picks| - 1);
      HeldAfter(s, packets, picks, num, message, |picks|, |packets|, Offset(|picks|));
      assert false;
    }
  }

  /** Any other packet of another number does disturb: nothing of the message is kept, or it has become outdated. */
  lemma OthersDisturb(s: State, p: Packet, num: nat, message: seq<Byte>, held: nat)
    requires !Undisturbed(p, num, message, s.incoming) && p.num != num
    requires num < SHORT_SIZE && p.num < SHORT_SIZE
    ensures held > 0 ==> !Holding(Next(s, p), num, message, held)
    ensures Kept(Next(s, p), num) == [] || Next(s, p).incoming > num
  {
    assert p.num % SHORT_SIZE == p.num;
  }

  /** The losses told of while a list of packets is received. */
  function Losses(s: State, packets: seq<Packet>): nat {
    if packets == [] then 0
    else Losses(s, packets[..|packets| - 1]) + After(s, packets).dropped
  }

  ghost predicate Rising(packets: seq<Packet>, above: nat) {
    && (forall k :: 0 <= k < |packets| ==> packets[k].Whole? && above < packets[k].num < SHORT_SIZE)
    && (forall j, k :: 0 <= j < k < |packets| ==> packets[j].num < packets[k].num)
  }

  /** Over every run of whole packets in order, the numbers are those of the packets received and the lost ones. */
  lemma {:induction false} LossesCounted(s: State, packets: seq<Packet>)
    requires Rising(packets, s.incoming)
    ensures After(s, packets).incoming == if packets == [] then s.incoming else packets[|packets| - 1].num
    ensures Losses(s, packets) + |packets| == After(s, packets).incoming - s.incoming
  {
    if packets != [] {
      var n := |packets| - 1;
      LossesCounted(s, packets[..n]);
      var from, num := After(s, packets[..n]).incoming, packets[n].num;
      assert from < num;
      assert (num - (from + 1)) % SHORT_SIZE == num - (from + 1);
    }
  }

  /** When the last accepted whole packet arrives again, it is delivered again and 65535 packets count as lost. */
  lemma RepeatCountsLosses(s: State, data: seq<Byte>)
    requires s.incoming < SHORT_SIZE
    ensures Result(s, Whole(s.incoming, data)).Delivered?
    ensures Next(s, Whole(s.incoming, data)) == s.(dropped := SHORT_SIZE - 1)
  {
    assert (s.incoming - (s.incoming + 1)) % SHORT_SIZE == SHORT_SIZE - 1;
  }

  // ---------------------------------------------------------------------------------------------
  // Where the channel falls short

  lemma {:induction false} ShortNumbers(s: State, packets: seq<Packet>)
    requires s.incoming < SHORT_SIZE && s.fragmentNum < SHORT_SIZE
    ensures After(s, packets).incoming < SHORT_SIZE && After(s, packets).fragmentNum < SHORT_SIZE
  {
    if packets != [] {
      ShortNumbers(s, packets[..|packets| - 1]);
    }
  }

  function Identity(n: nat): (r: seq<nat>)
    ensures |r| == n
    ensures forall k :: 0 <= k < n ==> r[k] == k
  {
    seq(n, k => k)
  }

  /**
   * The fragments of a message of at least the fragment size, received in order, deliver it if and only if
   * its number fits in 16 bits: the wider number never equals the one that is kept, so that each fragment
   * clears the ones before it.
   */
  lemma FragmentsDeliverExactlyWhen(s: State, num: nat, message: seq<Byte>)
    requires s.fragmentNum < SHORT_SIZE && Holding(s, num, message, 0) && |message| >= FRAGMENT_SIZE
    requires s.incoming < SHORT_SIZE
    ensures var chunks := ChunksFrom(num, message, 0);
            DeliveredIn(s, chunks, num, message) <==> num < SHORT_SIZE
  {
    var chunks := ChunksFrom(num, message, 0);
    ChunksInPlace(num, message);
    if num < SHORT_SIZE {
      GetsThrough(s, chunks, Identity(|chunks|), num, message);
    } else {
      forall k | 0 <= k < |chunks|
        ensures !OutcomeAt(s, chunks, k).Delivered?
      {
        ShortNumbers(s, chunks[..k]);
      }
    }
  }

  /** A packet as it is read: with the largest number, a fragment looks like no packet of the channel. */
  function Seen(p: Packet): Packet {
    if Hidden(p) then Connectionless else p
  }

  /** What a receiver that skips the port reads of transmit's datagrams. */
  function ReadByServer(port: nat, num: nat, message: seq<Byte>): (packets: seq<Packet>)
    requires port < SHORT_SIZE && SentFits(num, message)
    ensures |packets| == |Sent(num, message)|
    ensures forall k :: 0 <= k < |packets| ==> packets[k] == Seen(Sent(num, message)[k])
  {
    var ds := Datagrams(port, Sent(num, message));
    seq(|ds|, k requires 0 <= k < |ds| => ReadWithoutPort(port, Sent(num, message)[k], ds[k]))
  }

  function ReadWithoutPort(port: nat, ghost p: Packet, d: seq<Byte>): (read: Packet)
    requires port < SHORT_SIZE && Fits(p) && d == FromClient(port, p)
    ensures read == Seen(p)
  {
    ClientReadBack(port, p);
    Read(WithoutPort(d))
  }

  /** A fragment that declares the length of its message never delivers the message, whatever its bytes are. */
  lemma TotalDeclared(s: State, p: Packet, num: nat, message: seq<Byte>)
    requires |message| >= FRAGMENT_SIZE
    requires p.Fragment? && p.start <= p.length == |message| % SHORT_SIZE && |p.data| <= FRAGMENT_SIZE
             && Aligned(p.start)
    ensures !IsDelivery(Result(s, p), num, message)
  {
    if p.length < FRAGMENT_SIZE {
      assert p.start == 0;
    }
  }

  /** Fragments of a size with the same header, and any bytes behind it. */
  predicate SameHeader(p: Packet, q: Packet) {
    p.Fragment? && q.Fragment? && p == q.(data := p.data) && |p.data| <= FRAGMENT_SIZE
  }

  lemma SeenHeader(num: nat, message: seq<Byte>, k: nat)
    requires |message| >= FRAGMENT_SIZE && k < |Sent(num, message)|
    ensures var p := Sent(num, message)[k];
            Seen(p).Connectionless? || SameHeader(Seen(p), p)
  {
    SentAt(num, message, k);
  }

  /** The headers of transmit's fragments do not let a long message through, whatever bytes stand behind them. */
  lemma HeadersDeliverNothing(s: State, num: nat, message: seq<Byte>, packets: seq<Packet>)
    requires |message| >= FRAGMENT_SIZE && |packets| == |Sent(num, message)|
    requires forall k :: 0 <= k < |packets| ==>
               packets[k].Connectionless? || SameHeader(packets[k], Sent(num, message)[k])
    ensures !DeliveredIn(s, packets, num, message)
  {
    forall k | 0 <= k < |packets|
      ensures !IsDelivery(OutcomeAt(s, packets, k), num, message)
    {
      SentAt(num, message, k);
      if !packets[k].Connectionless? {
        TotalDeclared(After(s, packets[..k]), packets[k], num, message);
      }
    }
  }

  /**
   * A receiver that skips the port and otherwise does as receive does gets a message of transmit if and only if
   * it is shorter than the fragment size: the headers of the fragments hold the length of the message, which
   * the receiver takes for the fragment's.
   */
  lemma ServerDeliversExactlyWhen(s: State, port: nat, num: nat, message: seq<Byte>)
    requires s.incoming <= num < FRAGMENT_BIT && port < SHORT_SIZE
    ensures SentFits(num, message)
    ensures DeliveredIn(s, ReadByServer(port, num, message), num, message) <==> |message| < FRAGMENT_SIZE
  {
    SentInRange(num, message);
    var packets := ReadByServer(port, num, message);
    if |message| < FRAGMENT_SIZE {
      assert packets[0] == Sent(num, message)[0];
      assert IsDelivery(OutcomeAt(s, packets, 0), num, message);
    } else {
      forall k | 0 <= k < |packets|
        ensures packets[k].Connectionless? || SameHeader(packets[k], Sent(num, message)[k])
      {
        SeenHeader(num, message, k);
      }
      HeadersDeliverNothing(s, num, message, packets);
    }
  }

  /** What receive itself reads of transmit's datagrams. */
  function ReadByOwn(port: nat, num: nat, message: seq<Byte>): (packets: seq<Packet>)
    requires port < SHORT_SIZE && SentFits(num, message)
    ensures |packets| == |Sent(num, message)|
    ensures forall k :: 0 <= k < |packets| ==>
              packets[k] == if Hidden(Sent(num, message)[k]) then Connectionless
                            else Misread(port, Sent(num, message)[k])
  {
    var ds := Datagrams(port, Sent(num, message));
    seq(|ds|, k requires 0 <= k < |ds| =>
        SentStarts(num, message, k); ReadWithPort(port, Sent(num, message)[k], ds[k]))
  }

  function ReadWithPort(port: nat, ghost p: Packet, d: seq<Byte>): (read: Packet)
    requires port < SHORT_SIZE && Fits(p) && !p.Connectionless? && (p.Fragment? ==> p.start < SHORT_SIZE)
    requires d == FromClient(port, p)
    ensures read == if Hidden(p) then Connectionless else Misread(port, p)
  {
    PortMisread(port, p);
    Read(d)
  }

  lemma SentStarts(num: nat, message: seq<Byte>, k: nat)
    requires k < |Sent(num, message)|
    ensures !Sent(num, message)[k].Connectionless?
    ensures Sent(num, message)[k].Fragment? ==> Sent(num, message)[k].start == Offset(k) < SHORT_SIZE
    ensures Sent(num, message)[k].Fragment? <==> |message| >= FRAGMENT_SIZE
    ensures Sent(num, message)[k].num == num
  {
    if |message| >= FRAGMENT_SIZE {
      SentAt(num, message, k);
    }
  }

  /** A fragment of length 0 is dropped or delivers what is kept, here nothing. */
  lemma LengthZero(s: State, p: Packet, num: nat)
    requires s.incoming <= num && Kept(s, num) == []
    requires p.Connectionless? || (p.Fragment? && p.num == num && p.length == 0)
    ensures var (next, outcome) := Step(s, p);
            && next.incoming <= num && Kept(next, num) == []
            && (outcome.Delivered? <==> p.Fragment? && p.start == 0)
            && (outcome.Delivered? ==> IsDelivery(outcome, num, []))
  {
  }

  /** Of the fragments, receive keeps nothing. */
  lemma {:induction false} NothingKept(s: State, packets: seq<Packet>, num: nat, k: nat)
    requires s.incoming <= num && Kept(s, num) == [] && k <= |packets|
    requires forall i :: 0 <= i < |packets| ==>
               packets[i].Connectionless? || (packets[i].Fragment? && packets[i].num == num && packets[i].length == 0)
    ensures var now := After(s, packets[..k]);
            now.incoming <= num && Kept(now, num) == []
  {
    if k > 0 {
      NothingKept(s, packets, num, k - 1);
      AfterOne(s, packets, k - 1);
      LengthZero(After(s, packets[..k - 1]), packets[k - 1], num);
    }
  }

  /**
   * receive never gets a message of transmit: a short one arrives with the port in front, and of a long one
   * nothing arrives, or an empty message when the port is 0.
   */
  lemma OwnReceiverDelivers(s: State, port: nat, num: nat, message: seq<Byte>)
    requires s.incoming <= num < FRAGMENT_BIT && port < SHORT_SIZE && Kept(s, num) == []
    ensures SentFits(num, message)
    ensures !DeliveredIn(s, ReadByOwn(port, num, message), num, message)
    ensures |message| < FRAGMENT_SIZE ==>
              && |ReadByOwn(port, num, message)| == 1
              && IsDelivery(OutcomeAt(s, ReadByOwn(port, num, message), 0), num, ShortBytes(port) + message)
    ensures |message| >= FRAGMENT_SIZE ==>
              forall k :: 0 <= k < |ReadByOwn(port, num, message)| ==>
                EmptyAtMost(OutcomeAt(s, ReadByOwn(port, num, message), k), num, port, k)
  {
    SentInRange(num, message);
    var packets := ReadByOwn(port, num, message);
    if |message| < FRAGMENT_SIZE {
      SentStarts(num, message, 0);
      assert packets[0] == Whole(num, ShortBytes(port) + message);
      assert IsDelivery(OutcomeAt(s, packets, 0), num, ShortBytes(port) + message);
    } else {
      FragmentsMisread(port, num, message);
      forall k | 0 <= k < |packets|
        ensures EmptyAtMost(OutcomeAt(s, packets, k), num, port, k)
      {
        NothingKept(s, packets, num, k);
        LengthZero(After(s, packets[..k]), packets[k], num);
      }
    }
  }

  /** Nothing is delivered, except an empty message by the first fragment when the port is 0. */
  ghost predicate EmptyAtMost(outcome: Outcome, num: nat, port: nat, k: nat) {
    && (outcome.Delivered? <==> k == 0 && port == 0 && num + FRAGMENT_BIT != NO_SEQUENCE)
    && (outcome.Delivered? ==> IsDelivery(outcome, num, []))
  }

  lemma FragmentsMisread(port: nat, num: nat, message: seq<Byte>)
    requires port < SHORT_SIZE && SentFits(num, message) && |message| >= FRAGMENT_SIZE
    ensures forall k :: 0 <= k < |ReadByOwn(port, num, message)| ==>
              var p := ReadByOwn(port, num, message)[k];
              && (p.Connectionless? <==> num + FRAGMENT_BIT == NO_SEQUENCE)
              && (!p.Connectionless? ==> p.Fragment? && p.num == num && p.length == 0)
              && (!p.Connectionless? ==> (p.start == 0 <==> k == 0 && port == 0))
  {
    forall k | 0 <= k < |ReadByOwn(port, num, message)|
      ensures var p := ReadByOwn(port, num, message)[k];
              && (p.Connectionless? <==> num + FRAGMENT_BIT == NO_SEQUENCE)
              && (!p.Connectionless? ==> p.Fragment? && p.num == num && p.length == 0)
              && (!p.Connectionless? ==> (p.start == 0 <==> k == 0 && port == 0))
    {
      SentStarts(num, message, k);
    }
  }

  /** receive hands over what it has: the packet passes every one of its tests. */
  predicate Passes(s: State, p: Packet) {
    match p
    case Connectionless => false
    case Whole(num, _) => num >= s.incoming
    case Fragment(num, start, length, data) =>
      num >= s.incoming && start == |Kept(s, num)| && length <= |data| && length != FRAGMENT_SIZE
  }

  /** The packet passes, and its number does not fit in 16 bits and wraps below the last accepted one. */
  predicate WrapsBelow(s: State, p: Packet) {
    Passes(s, p) && p.num >= SHORT_SIZE && p.num % SHORT_SIZE < s.incoming
  }

  predicate WrapsAt(s: State, packets: seq<Packet>, k: nat)
    requires k < |packets|
  {
    WrapsBelow(After(s, packets[..k]), packets[k])
  }

  predicate FallsBetween(s: State, packets: seq<Packet>, i: nat, j: nat)
    requires i <= j <= |packets|
  {
    After(s, packets[..i]).incoming > After(s, packets[..j]).incoming
  }

  /** One packet lowers the last accepted number exactly when it wraps below it. */
  lemma FallsAtWraps(s: State, packets: seq<Packet>, k: nat)
    requires k < |packets|
    ensures FallsBetween(s, packets, k, k + 1) <==> WrapsAt(s, packets, k)
  {
    AfterOne(s, packets, k);
  }

  lemma {:induction false} NotFallenYet(s: State, packets: seq<Packet>, i: nat, j: nat)
    requires i <= j <= |packets|
    requires forall k :: 0 <= k < |packets| ==> !WrapsAt(s, packets, k)
    ensures !FallsBetween(s, packets, i, j)
  {
    if i < j {
      NotFallenYet(s, packets, i, j - 1);
      FallsAtWraps(s, packets, j - 1);
    }
  }

  /** Over every run of packets, the last accepted number never falls if and only if no passing packet wraps. */
  lemma NeverFallsExactlyWhen(s: State, packets: seq<Packet>)
    ensures (forall i, j :: 0 <= i <= j <= |packets| ==> !FallsBetween(s, packets, i, j))
       <==> (forall k :: 0 <= k < |packets| ==> !WrapsAt(s, packets, k))
  {
    if k :| 0 <= k < |packets| && WrapsAt(s, packets, k) {
      FallsAtWraps(s, packets, k);
    } else {
      forall i, j | 0 <= i <= j <= |packets|
        ensures !FallsBetween(s, packets, i, j)
      {
        NotFallenYet(s, packets, i, j);
      }
    }
  }

  /** A run in which it falls, so that a number from the beginning is accepted again. */
  lemma WrapReadmits(data: seq<Byte>)
    ensures var run := [Whole(1, data), Whole(65535, data), Whole(65536, data), Whole(1, data)];
            && (forall i :: 0 <= i < |run| ==> OutcomeAt(START, run, i).Delivered?)
            && After(START, run[..2]).incoming == 65535 && After(START, run[..3]).incoming == 0
  {
    var run := [Whole(1, data), Whole(65535, data), Whole(65536, data), Whole(1, data)];
    AfterOne(START, run, 0);
    AfterOne(START, run, 1);
    AfterOne(START, run, 2);
  }

  lemma {:induction false} StillHolding(s: State, packets: seq<Packet>, num: nat, message: seq<Byte>)
    requires Holding(s, num, message, 0) && num < SHORT_SIZE
    requires AreChunks(packets, num, message)
    ensures Holding(After(s, packets), num, message, 0)
  {
    if packets != [] {
      var n := |packets| - 1;
      StillHolding(s, packets[..n], num, message);
      StepHolds(After(s, packets[..n]), packets[n], After(s, packets), num, message, 0);
    }
  }

  /** Only numbers below the last accepted one are discarded: a message that arrives twice is delivered twice. */
  lemma RepeatDelivers(s: State, num: nat, message: seq<Byte>)
    requires Holding(s, num, message, 0) && num < SHORT_SIZE
    ensures var chunks := ChunksFrom(num, message, 0);
            && DeliveredIn(s, chunks, num, message)
            && DeliveredIn(After(s, chunks), chunks, num, message)
  {
    var chunks := ChunksFrom(num, message, 0);
    ChunksInPlace(num, message);
    StillHolding(s, chunks, num, message);
    GetsThrough(s, chunks, Identity(|chunks|), num, message);
    GetsThrough(After(s, chunks), chunks, Identity(|chunks|), num, message);
  }
}
