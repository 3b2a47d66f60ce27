/** The delta of an entity state over a field table (Network/Serializable/Entity.cpp, EntityField.cpp). */
module EntityDelta {
  import opened Words

  // ---------------------------------------------------------------------------------------------
  // Fields and tokens

  /** Fields of 0 bits of the regular kind hold a float, those of more an integer; the other kinds hold a float. */
  datatype Kind = Regular | Angle | AnimTime | AnimWeight | Scale | Alpha | Coord | Velocity

  /** A field of a number of bytes. */
  datatype Field = Field(kind: Kind, bits: nat, size: nat)

  datatype Value = Integer(n: Word) | Float(r: real)

  /** What the message stores for one write: a bit, a number of some bits, or a full float. */
  datatype Token = Bool(b: bool) | Number(n: int, bits: nat) | Full(r: real)

  /** The arithmetic that the other kinds go through. */
  datatype Packing = Packing(pack: (Field, real) -> nat, unpack: (Field, nat) -> real)

  ghost predicate IsTable(table: seq<Field>) {
    |table| < 0x100 && forall i :: 0 <= i < |table| ==> IsField(table[i])
  }

  ghost predicate IsField(f: Field) {
    && f.bits <= 32 && 1 <= f.size <= 4
    && (f.kind == Regular && f.bits > 0 ==> f.bits <= 8 * f.size)
  }

  predicate IsFloat(f: Field) {
    f.kind != Regular || f.bits == 0
  }

  ghost predicate HasType(f: Field, v: Value) {
    if IsFloat(f) then v.Float? else v.Integer? && v.n < Pow2(8 * f.size)
  }

  ghost predicate IsState(table: seq<Field>, state: seq<Value>) {
    |state| == |table| && forall i :: 0 <= i < |table| ==> HasType(table[i], state[i])
  }

  // ---------------------------------------------------------------------------------------------
  // One field

  /** A conversion to an integer, towards zero. */
  function Truncated(r: real): int {
    if r >= 0.0 then r.Floor else -(-r).Floor
  }

  const FLOAT_INT_BITS: nat := 13
  const FLOAT_INT_BIAS: int := 0x1000

  predicate IsSmallInteger(r: real) {
    var t := Truncated(r);
    t as real == r && 0 <= t + FLOAT_INT_BIAS < 0x2000
  }

  lemma RemainderBounds(n: nat, m: nat)
    requires m >= 1
    ensures 0 <= n % m < m && n % m <= n
    ensures n < m ==> n % m == n
  {
    if n < m {
      SmallRemainder(n, m);
    }
  }

  lemma SmallRemainder(n: nat, m: nat)
    requires n < m
    ensures n % m == n
  {
  }

  /** The low bits of a word. */
  function Low(n: Word, bits: nat): (r: Word)
    ensures r < Pow2(bits)
    ensures n < Pow2(bits) ==> r == n
  {
    RemainderBounds(n, Pow2(bits));
    n % Pow2(bits)
  }

  /** The tokens that a field's value leaves. */
  function Written(p: Packing, f: Field, v: Value): seq<Token>
    requires HasType(f, v)
  {
    if f.kind != Regular then [Number(p.pack(f, v.r), f.bits)]
    else if f.bits == 0 then
      if v.r == 0.0 then [Bool(false)]
      else if IsSmallInteger(v.r) then
        [Bool(true), Bool(false), Number(Truncated(v.r) + FLOAT_INT_BIAS, FLOAT_INT_BITS)]
      else [Bool(true), Bool(true), Full(v.r)]
    else if v.n == 0 then [Bool(false)]
    else [Bool(true), Number(Low(v.n, f.bits), f.bits)]
  }

  /** The bits that a reader of the field takes: weights and alphas are read as a byte. */
  function ReadBits(f: Field): nat {
    if f.kind == AnimWeight || f.kind == Alpha then 8 else f.bits
  }

  /** The value that a reader makes of what was written. */
  function Decoded(p: Packing, f: Field, v: Value): Value
    requires HasType(f, v)
  {
    if f.kind != Regular then Float(p.unpack(f, p.pack(f, v.r)))
    else if f.bits == 0 then v
    else Integer(Low(v.n, f.bits))
  }

  /** memcmp of the field's bytes, summed up after an exclusive or. */
  function XorSum(a: Word, b: Word, size: nat): nat
    requires size <= 4
  {
    if size == 0 then 0 else XorSum(a, b, size - 1) + XorByte(ByteOf(a, size - 1), ByteOf(b, size - 1))
  }

  predicate DeltaNeeded(p: Packing, f: Field, from: Value, to: Value)
    requires HasType(f, from) && HasType(f, to) && IsField(f)
  {
    if from == to then false
    else
      match f.kind
      case Regular => f.bits == 0 || f.bits == 32 || XorSum(from.n, to.n, f.size) % Pow2(f.bits) != 0
      case Coord => true
      case Velocity => true
      case _ => p.pack(f, from.r) != p.pack(f, to.r)
  }

  // ---------------------------------------------------------------------------------------------
  // Saving

  predicate Flagged(p: Packing, table: seq<Field>, from: seq<Value>, to: seq<Value>, i: nat)
    requires IsTable(table) && IsState(table, from) && IsState(table, to) && i < |table|
  {
    DeltaNeeded(p, table[i], from[i], to[i])
  }

  /** One more than the last place below n that is flagged, or 0. */
  function LastChanged(p: Packing, table: seq<Field>, from: seq<Value>, to: seq<Value>, n: nat): (lc: nat)
    requires IsTable(table) && IsState(table, from) && IsState(table, to) && n <= |table|
    ensures lc <= n
    ensures forall i :: lc <= i < n ==> !Flagged(p, table, from, to, i)
    ensures lc > 0 ==> Flagged(p, table, from, to, lc - 1)
  {
    if n == 0 then 0
    else if Flagged(p, table, from, to, n - 1) then n
    else LastChanged(p, table, from, to, n - 1)
  }

  function FieldTokens(p: Packing, table: seq<Field>, from: seq<Value>, to: seq<Value>, i: nat): seq<Token>
    requires IsTable(table) && IsState(table, from) && IsState(table, to) && i < |table|
  {
    if Flagged(p, table, from, to, i) then [Bool(true)] + Written(p, table[i], to[i]) else [Bool(false)]
  }

  /** The tokens of the fields from a place on, up to another. */
  function FieldsFrom(p: Packing, table: seq<Field>, from: seq<Value>, to: seq<Value>, i: nat, lc: nat): seq<Token>
    requires IsTable(table) && IsState(table, from) && IsState(table, to) && i <= lc <= |table|
    decreases lc - i
  {
    if i == lc then [] else FieldTokens(p, table, from, to, i) + FieldsFrom(p, table, from, to, i + 1, lc)
  }

  /** The tokens of a state that is not removed. */
  function Saved(p: Packing, table: seq<Field>, from: seq<Value>, to: seq<Value>): seq<Token>
    requires IsTable(table) && IsState(table, from) && IsState(table, to)
  {
    var lc := LastChanged(p, table, from, to, |table|);
    if lc == 0 then [Bool(false), Bool(false)]
    else [Bool(false), Bool(true), Number(lc, 8)] + FieldsFrom(p, table, from, to, 0, lc)
  }

  // ---------------------------------------------------------------------------------------------
  // Loading

  /** What a read finds, with the tokens behind it; it fails on a token of another kind or width. */
  datatype Read<T> = Fails | Read(value: T, rest: seq<Token>)

  function TakeBool(tokens: seq<Token>): Read<bool> {
    if tokens != [] && tokens[0].Bool? then Read(tokens[0].b, tokens[1..]) else Fails
  }

  function TakeNumber(tokens: seq<Token>, bits: nat): Read<int> {
    if tokens != [] && tokens[0].Number? && tokens[0].bits == bits then Read(tokens[0].n, tokens[1..]) else Fails
  }

  function TakeFull(tokens: seq<Token>): Read<real> {
    if tokens != [] && tokens[0].Full? then Read(tokens[0].r, tokens[1..]) else Fails
  }

  function TakeRegularFloat(tokens: seq<Token>): Read<Value> {
    match TakeBool(tokens)
    case Fails => Fails
    case Read(hasValue, more) =>
      if !hasValue then Read(Float(0.0), more)
      else
        match TakeBool(more)
        case Fails => Fails
        case Read(isFull, more) =>
          if isFull then
            match TakeFull(more)
            case Fails => Fails
            case Read(r, rest) => Read(Float(r), rest)
          else
            match TakeNumber(more, FLOAT_INT_BITS)
            case Fails => Fails
            case Read(n, rest) => Read(Float((n - FLOAT_INT_BIAS) as real), rest)
  }

  function TakeRegularInteger(tokens: seq<Token>, bits: nat): Read<Value> {
    match TakeBool(tokens)
    case Fails => Fails
    case Read(hasValue, more) =>
      if !hasValue then Read(Integer(0), more)
      else
        match TakeNumber(more, bits)
        case Fails => Fails
        case Read(n, rest) => if 0 <= n < WORD_SIZE then Read(Integer(n), rest) else Fails
  }

  function TakeField(p: Packing, f: Field, tokens: seq<Token>): Read<Value> {
    if f.kind != Regular then
      match TakeNumber(tokens, ReadBits(f))
      case Fails => Fails
      case Read(n, rest) => if n >= 0 then Read(Float(p.unpack(f, n)), rest) else Fails
    else if f.bits == 0 then TakeRegularFloat(tokens)
    else TakeRegularInteger(tokens, f.bits)
  }

  /** A field's value: the old one, or the one behind the bit that says it changed. */
  function TakeOne(p: Packing, f: Field, from: Value, tokens: seq<Token>): Read<Value> {
    match TakeBool(tokens)
    case Fails => Fails
    case Read(isDiff, more) => if isDiff then TakeField(p, f, more) else Read(from, more)
  }

  /** The values of the fields from a place on, up to another. */
  function TakeFields(p: Packing, table: seq<Field>, from: seq<Value>, i: nat, lc: nat, tokens: seq<Token>)
    : Read<seq<Value>>
    requires i <= lc <= |table| == |from|
    decreases lc - i
  {
    if i == lc then Read([], tokens)
    else
      match TakeOne(p, table[i], from[i], tokens)
      case Fails => Fails
      case Read(v, more) => Join([v], TakeFields(p, table, from, i + 1, lc, more))
  }

  datatype Loaded = Removed | State(values: seq<Value>)

  /** What stands before the fields: removed, nothing changed, or how many fields follow. */
  datatype Header = Gone | Same | Changes(lc: int)

  function TakeHeader(tokens: seq<Token>): Read<Header> {
    match TakeBool(tokens)
    case Fails => Fails
    case Read(removed, more) =>
      if removed then Read(Gone, more)
      else
        match TakeBool(more)
        case Fails => Fails
        case Read(hasDelta, more) =>
          if !hasDelta then Read(Same, more)
          else
            match TakeNumber(more, 8)
            case Fails => Fails
            case Read(lc, more) => Read(Changes(lc), more)
  }

  function Take(p: Packing, table: seq<Field>, from: seq<Value>, tokens: seq<Token>): Read<Loaded>
    requires |table| == |from|
  {
    match TakeHeader(tokens)
    case Fails => Fails
    case Read(Gone, rest) => Read(Removed, rest)
    case Read(Same, rest) => Read(State(from), rest)
    case Read(Changes(lc), more) =>
      if !(0 <= lc <= |table|) then Fails
      else
        match TakeFields(p, table, from, 0, lc, more)
        case Fails => Fails
        case Read(vs, rest) => Read(State(vs + from[lc..]), rest)
  }

  // ---------------------------------------------------------------------------------------------
  // There and back

  /** The value that a reader has in the end: the decoded one where it was flagged, the old one elsewhere. */
  function Expected(p: Packing, table: seq<Field>, from: seq<Value>, to: seq<Value>, i: nat): Value
    requires IsTable(table) && IsState(table, from) && IsState(table, to) && i < |table|
  {
    if Flagged(p, table, from, to, i) then Decoded(p, table[i], to[i]) else from[i]
  }

  function ExpectedAll(p: Packing, table: seq<Field>, from: seq<Value>, to: seq<Value>): (r: seq<Value>)
    requires IsTable(table) && IsState(table, from) && IsState(table, to)
    ensures |r| == |table|
  {
    seq(|table|, i requires 0 <= i < |table| => Expected(p, table, from, to, i))
  }

  /** A field is read back as it was decoded, if and only if it is read with the width it was written with. */
  lemma FieldBack(p: Packing, f: Field, v: Value, rest: seq<Token>)
    requires IsField(f) && HasType(f, v)
    ensures TakeField(p, f, Written(p, f, v) + rest)
         == if ReadBits(f) == f.bits then Read(Decoded(p, f, v), rest) else Fails
  {
    var tokens := Written(p, f, v) + rest;
    if f.kind != Regular {
      assert tokens[1..] == rest;
    } else if f.bits == 0 {
      FloatBack(v.r, tokens, rest, Written(p, f, v));
    } else if v.n == 0 {
      assert tokens[1..] == rest && Low(v.n, f.bits) == 0;
    } else {
      assert tokens[1..][1..] == rest;
    }
  }

  lemma FloatBack(r: real, tokens: seq<Token>, rest: seq<Token>, written: seq<Token>)
    requires tokens == written + rest
    requires written == if r == 0.0 then [Bool(false)]
                        else if IsSmallInteger(r) then
                          [Bool(true), Bool(false), Number(Truncated(r) + FLOAT_INT_BIAS, FLOAT_INT_BITS)]
                        else [Bool(true), Bool(true), Full(r)]
    ensures TakeRegularFloat(tokens) == Read(Float(r), rest)
  {
    assert tokens[|written|..] == rest;
    if r == 0.0 {
      assert tokens[1..] == rest;
    } else {
      assert tokens[1..][1..][1..] == rest;
    }
  }

  /** Every flagged field of a stretch is read with the width that it was written with. */
  predicate WidthsAgree(p: Packing, table: seq<Field>, from: seq<Value>, to: seq<Value>, i: nat, lc: nat)
    requires IsTable(table) && IsState(table, from) && IsState(table, to) && lc <= |table|
  {
    forall k :: i <= k < lc && Flagged(p, table, from, to, k) ==> ReadBits(table[k]) == table[k].bits
  }

  lemma OneBack(p: Packing, table: seq<Field>, from: seq<Value>, to: seq<Value>, i: nat, later: seq<Token>)
    requires IsTable(table) && IsState(table, from) && IsState(table, to) && i < |table|
    ensures TakeOne(p, table[i], from[i], FieldTokens(p, table, from, to, i) + later)
         == if Flagged(p, table, from, to, i) && ReadBits(table[i]) != table[i].bits then Fails
            else Read(Expected(p, table, from, to, i), later)
  {
    var isDiff := Flagged(p, table, from, to, i);
    var more := (if isDiff then Written(p, table[i], to[i]) else []) + later;
    assert FieldTokens(p, table, from, to, i) + later == [Bool(isDiff)] + more;
    OneTaken(p, table[i], from[i], isDiff, more);
    if isDiff {
      FieldBack(p, table[i], to[i], later);
    } else {
      assert more == later;
    }
  }

  lemma OneTaken(p: Packing, f: Field, from: Value, isDiff: bool, more: seq<Token>)
    ensures TakeOne(p, f, from, [Bool(isDiff)] + more) == if isDiff then TakeField(p, f, more) else Read(from, more)
  {
    BoolTaken(isDiff, more);
  }

  lemma BoolTaken(b: bool, more: seq<Token>)
    ensures TakeBool([Bool(b)] + more) == Read(b, more)
  {
    assert ([Bool(b)] + more)[1..] == more;
  }

  /** The expected values from a place on, up to another. */
  function ExpectedFrom(p: Packing, table: seq<Field>, from: seq<Value>, to: seq<Value>, i: nat, lc: nat)
    : (r: seq<Value>)
    requires IsTable(table) && IsState(table, from) && IsState(table, to) && i <= lc <= |table|
    ensures |r| == lc - i
    ensures forall k :: 0 <= k < lc - i ==> r[k] == Expected(p, table, from, to, i + k)
    decreases lc - i
  {
    if i == lc then [] else [Expected(p, table, from, to, i)] + ExpectedFrom(p, table, from, to, i + 1, lc)
  }

  lemma {:induction false} FieldsBack(p: Packing, table: seq<Field>, from: seq<Value>, to: seq<Value>, i: nat, lc: nat,
                                      rest: seq<Token>)
    requires IsTable(table) && IsState(table, from) && IsState(table, to) && i <= lc <= |table|
    ensures TakeFields(p, table, from, i, lc, FieldsFrom(p, table, from, to, i, lc) + rest)
         == if WidthsAgree(p, table, from, to, i, lc) then Read(ExpectedFrom(p, table, from, to, i, lc), rest)
            else Fails
    decreases lc - i
  {
    var tokens := FieldsFrom(p, table, from, to, i, lc) + rest;
    if i == lc {
      assert tokens == rest;
    } else {
      var later := FieldsFrom(p, table, from, to, i + 1, lc) + rest;
      assert tokens == FieldTokens(p, table, from, to, i) + later;
      OneBack(p, table, from, to, i, later);
      FieldsBack(p, table, from, to, i + 1, lc, rest);
    }
  }

  /**
   * What was saved against a state and is loaded against the same one: exactly the saved tokens are taken, and
   * every field has its expected value, if and only if no flagged weight or alpha has another width than 8 bits.
   */
  lemma SavedBack(p: Packing, table: seq<Field>, from: seq<Value>, to: seq<Value>, rest: seq<Token>)
    requires IsTable(table) && IsState(table, from) && IsState(table, to)
    ensures Take(p, table, from, Saved(p, table, from, to) + rest)
         == if WidthsAgree(p, table, from, to, 0, |table|) then Read(State(ExpectedAll(p, table, from, to)), rest)
            else Fails
  {
    var lc := LastChanged(p, table, from, to, |table|);
    ExpectedEnds(p, table, from, to, lc);
    if lc == 0 {
      var more := [Bool(false)] + rest;
      assert Saved(p, table, from, to) + rest == [Bool(false)] + more;
      BoolTaken(false, more);
      BoolTaken(false, rest);
      assert from[0..] == from == ExpectedFrom(p, table, from, to, 0, 0) + from[0..];
    } else {
      var fields := FieldsFrom(p, table, from, to, 0, lc) + rest;
      assert Saved(p, table, from, to) + rest == [Bool(false), Bool(true), Number(lc, 8)] + fields;
      HeaderTaken(p, table, from, lc, fields);
      FieldsBack(p, table, from, to, 0, lc, rest);
    }
  }

  /** Weights and alphas have the 8 bits that they are read with, as in both tables of the source. */
  predicate ByteWeights(table: seq<Field>) {
    forall i :: 0 <= i < |table| && (table[i].kind == AnimWeight || table[i].kind == Alpha) ==> table[i].bits == 8
  }

  /** Over such a table, every state comes back, whatever state it was saved against. */
  lemma TableBack(p: Packing, table: seq<Field>, from: seq<Value>, to: seq<Value>, rest: seq<Token>)
    requires IsTable(table) && ByteWeights(table) && IsState(table, from) && IsState(table, to)
    ensures Take(p, table, from, Saved(p, table, from, to) + rest)
         == Read(State(ExpectedAll(p, table, from, to)), rest)
  {
    SavedBack(p, table, from, to, rest);
  }

  lemma HeaderTaken(p: Packing, table: seq<Field>, from: seq<Value>, lc: nat, fields: seq<Token>)
    requires lc <= |table| == |from|
    ensures Take(p, table, from, [Bool(false), Bool(true), Number(lc, 8)] + fields)
         == match TakeFields(p, table, from, 0, lc, fields)
            case Fails => Fails
            case Read(vs, rest) => Read(State(vs + from[lc..]), rest)
  {
    var behind := [Number(lc, 8)] + fields;
    assert [Bool(false), Bool(true), Number(lc, 8)] + fields == [Bool(false)] + ([Bool(true)] + behind);
    BoolTaken(false, [Bool(true)] + behind);
    BoolTaken(true, behind);
    assert behind[1..] == fields;
  }

  lemma ExpectedEnds(p: Packing, table: seq<Field>, from: seq<Value>, to: seq<Value>, lc: nat)
    requires IsTable(table) && IsState(table, from) && IsState(table, to) && lc <= |table|
    requires forall i :: lc <= i < |table| ==> !Flagged(p, table, from, to, i)
    ensures ExpectedFrom(p, table, from, to, 0, lc) + from[lc..] == ExpectedAll(p, table, from, to)
    ensures WidthsAgree(p, table, from, to, 0, lc) <==> WidthsAgree(p, table, from, to, 0, |table|)
  {
  }

  // ---------------------------------------------------------------------------------------------
  // Exactness of the regular kind

  lemma {:induction false} XorIsZero(x: nat, y: nat)
    ensures XorBits(x, y) == 0 <==> x == y
  {
    if x != 0 || y != 0 {
      XorIsZero(x / 2, y / 2);
    }
  }

  /** The sum tells two words of a size apart. */
  lemma {:induction false} XorSumPositive(a: Word, b: Word, size: nat)
    requires size <= 4
    ensures XorSum(a, b, size) > 0 <==> exists i :: 0 <= i < size && ByteOf(a, i) != ByteOf(b, i)
  {
    if size > 0 {
      XorSumPositive(a, b, size - 1);
      XorIsZero(ByteOf(a, size - 1), ByteOf(b, size - 1));
    }
  }

  lemma {:induction false} XorSumSmall(a: Word, b: Word, size: nat)
    requires size <= 4
    ensures XorSum(a, b, size) <= 255 * size
  {
    if size > 0 {
      XorSumSmall(a, b, size - 1);
    }
  }

  lemma {:induction false} Pow2Grows(n: nat, m: nat)
    requires n <= m
    ensures Pow2(n) <= Pow2(m)
    decreases m - n
  {
    if n < m {
      Pow2Grows(n + 1, m);
    }
  }

  /** A value with up to eight, nine or sixteen bits and more is below that power, as a number. */
  lemma Room(n: nat, bits: nat)
    requires n < Pow2(bits)
    ensures bits <= 8 ==> n < 0x100
    ensures bits <= 9 ==> n < 0x200
    ensures bits <= 16 ==> n < 0x1_0000
    ensures bits <= 24 ==> n < 0x100_0000
  {
    SmallPowers();
    if bits <= 8 {
      Pow2Grows(bits, 8);
    } else if bits == 9 {
      assert Pow2(bits) == 2 * Pow2(bits - 1);
    } else if bits <= 16 {
      Pow2Grows(bits, 16);
    } else if bits <= 24 {
      Pow2Grows(bits, 24);
    }
  }

  lemma SmallPowers()
    ensures Pow2(8) == 0x100 && Pow2(16) == 0x1_0000 && Pow2(24) == 0x100_0000
  {
    assert Pow2(8) == 0x100;
    assert Pow2(12) == 0x1000;
    assert Pow2(16) == 0x1_0000;
    assert Pow2(20) == 0x10_0000;
  }

  /** Two words below a power of two up to the eighth differ in their lowest byte only. */
  lemma OneByte(a: Word, b: Word, bits: nat, size: nat)
    requires bits <= 8 && 1 <= size <= 4 && a < Pow2(bits) && b < Pow2(bits)
    ensures XorSum(a, b, size) < Pow2(bits)
  {
    Room(a, bits);
    Room(b, bits);
    NoMoreBytes(a, b, size, 1);
    LowestByte(a, b);
    XorBitsBound(a, b, bits);
  }

  lemma LowestByte(a: Word, b: Word)
    requires a < 0x100 && b < 0x100
    ensures XorSum(a, b, 1) == XorBits(a, b)
  {
    assert ByteOf(a, 0) == a && ByteOf(b, 0) == b;
  }

  lemma {:induction false} NoMoreBytes(a: Word, b: Word, size: nat, low: nat)
    requires 1 <= low <= size <= 4 && low <= 2
    requires low == 1 ==> a < 0x100 && b < 0x100
    requires low == 2 ==> a < 0x1_0000 && b < 0x1_0000
    ensures XorSum(a, b, size) == XorSum(a, b, low)
    decreases size
  {
    if size > low {
      NoMoreBytes(a, b, size - 1, low);
      NoByte(a, low, size - 1);
      NoByte(b, low, size - 1);
      XorIsZero(0, 0);
    }
  }

  lemma SecondByte(w: Word)
    requires w < 0x200
    ensures ByteOf(w, 1) <= 1
  {
  }

  lemma NineBits(a: Word, b: Word, size: nat)
    requires 2 <= size <= 4 && a < 0x200 && b < 0x200
    ensures XorSum(a, b, size) <= 256
  {
    NoMoreBytes(a, b, size, 2);
    SecondByte(a);
    SecondByte(b);
    XorBitsBound(ByteOf(a, 1), ByteOf(b, 1), 1);
    XorSumSmall(a, b, 1);
  }

  /** For words below a power of two, the sum does not reach it. */
  lemma XorSumFits(a: Word, b: Word, bits: nat, size: nat)
    requires 1 <= bits <= 32 && 1 <= size <= 4 && bits <= 8 * size && a < Pow2(bits) && b < Pow2(bits)
    ensures XorSum(a, b, size) < Pow2(bits)
  {
    if bits <= 8 {
      OneByte(a, b, bits, size);
    } else if bits == 9 {
      Room(a, bits);
      Room(b, bits);
      NineBits(a, b, size);
    } else {
      Pow2Grows(10, bits);
      XorSumSmall(a, b, size);
    }
  }

  lemma BytesTell(a: Word, b: Word, size: nat)
    requires 1 <= size <= 4 && a < Pow2(8 * size) && b < Pow2(8 * size)
    requires forall i :: 0 <= i < size ==> ByteOf(a, i) == ByteOf(b, i)
    ensures a == b
  {
    Room(a, 8 * size);
    Room(b, 8 * size);
    SumOfBytes(a);
    SumOfBytes(b);
    forall i: nat | i < 4
      ensures ByteOf(a, i) == ByteOf(b, i)
    {
      if i >= size {
        NoByte(a, size, i);
        NoByte(b, size, i);
      }
    }
    assert ByteOf(a, 0) == ByteOf(b, 0) && ByteOf(a, 1) == ByteOf(b, 1);
    assert ByteOf(a, 2) == ByteOf(b, 2) && ByteOf(a, 3) == ByteOf(b, 3);
  }

  lemma NoByte(w: Word, size: nat, i: nat)
    requires 1 <= size <= i < 4
    requires size == 1 ==> w < 0x100
    requires size == 2 ==> w < 0x1_0000
    requires size == 3 ==> w < 0x100_0000
    ensures ByteOf(w, i) == 0
  {
  }

  /** A float, or an integer below the power of two that the field has room for. */
  ghost predicate InRange(f: Field, v: Value)
    requires HasType(f, v)
  {
    f.kind == Regular && (f.bits > 0 ==> v.n < Pow2(f.bits))
  }

  /** For such values, a regular field is flagged exactly when it changed, and read back exactly. */
  lemma RegularExact(p: Packing, f: Field, from: Value, to: Value)
    requires IsField(f) && HasType(f, from) && HasType(f, to) && InRange(f, from) && InRange(f, to)
    ensures DeltaNeeded(p, f, from, to) <==> from != to
    ensures Decoded(p, f, to) == to && ReadBits(f) == f.bits
  {
    if f.bits > 0 && f.bits != 32 && from != to {
      XorSumFits(from.n, to.n, f.bits, f.size);
      XorSumPositive(from.n, to.n, f.size);
      if forall i :: 0 <= i < f.size ==> ByteOf(from.n, i) == ByteOf(to.n, i) {
        BytesTell(from.n, to.n, f.size);
      }
      SmallRemainder(XorSum(from.n, to.n, f.size), Pow2(f.bits));
    }
  }

  /** A state of such fields comes back as it was, whatever state it was saved against. */
  lemma RegularStateBack(p: Packing, table: seq<Field>, from: seq<Value>, to: seq<Value>, rest: seq<Token>)
    requires IsTable(table) && IsState(table, from) && IsState(table, to)
    requires forall i :: 0 <= i < |table| ==> InRange(table[i], from[i]) && InRange(table[i], to[i])
    ensures Take(p, table, from, Saved(p, table, from, to) + rest) == Read(State(to), rest)
  {
    forall i | 0 <= i < |table|
      ensures Expected(p, table, from, to, i) == to[i] && ReadBits(table[i]) == table[i].bits
    {
      RegularExact(p, table[i], from[i], to[i]);
    }
    SavedBack(p, table, from, to, rest);
    assert ExpectedAll(p, table, from, to) == to;
  }

  // ---------------------------------------------------------------------------------------------
  // What the other kinds keep

  /** A value goes through the packing again as it went the first time. */
  ghost predicate PacksAgain(p: Packing, f: Field, v: Value)
    requires f.kind != Regular && HasType(f, v)
  {
    p.pack(f, p.unpack(f, p.pack(f, v.r))) == p.pack(f, v.r)
  }

  /** The value that a reader has in the end. */
  function LoadedValue(p: Packing, f: Field, from: Value, to: Value): Value
    requires IsField(f) && HasType(f, from) && HasType(f, to)
  {
    if DeltaNeeded(p, f, from, to) then Decoded(p, f, to) else from
  }

  /**
   * A packed field is only left out when the old value packs like the new one, a coordinate or a velocity only
   * when it is the new one. What the reader has packs like what was saved if and only if it was left out or the
   * saved value packs again as it did.
   */
  lemma PackedAlikeExactlyWhen(p: Packing, f: Field, from: Value, to: Value)
    requires IsField(f) && f.kind != Regular && HasType(f, from) && HasType(f, to)
    ensures !DeltaNeeded(p, f, from, to) ==> p.pack(f, from.r) == p.pack(f, to.r)
    ensures f.kind == Coord || f.kind == Velocity ==> (DeltaNeeded(p, f, from, to) <==> from != to)
    ensures p.pack(f, LoadedValue(p, f, from, to).r) == p.pack(f, to.r)
       <==> !DeltaNeeded(p, f, from, to) || PacksAgain(p, f, to)
  {
  }

  /** Regular fields in range, and others whose values pack again as they did. */
  ghost predicate Keeps(p: Packing, f: Field, from: Value, to: Value)
    requires HasType(f, from) && HasType(f, to)
  {
    if f.kind == Regular then InRange(f, from) && InRange(f, to) else PacksAgain(p, f, to)
  }

  lemma ValueKept(p: Packing, f: Field, from: Value, to: Value)
    requires IsField(f) && HasType(f, from) && HasType(f, to) && Keeps(p, f, from, to)
    ensures var v := LoadedValue(p, f, from, to);
            && HasType(f, v) && Written(p, f, v) == Written(p, f, to)
            && (DeltaNeeded(p, f, v, to) ==> v != to && (f.kind == Coord || f.kind == Velocity))
  {
    if f.kind == Regular {
      RegularExact(p, f, from, to);
    } else {
      PackedAlikeExactlyWhen(p, f, from, to);
    }
  }

  /**
   * What is loaded is, for the next delta, as good as what was saved: the same tokens would be written of it,
   * and the saved state differs from it in coordinates and velocities at most.
   */
  lemma LoadedKeeps(p: Packing, table: seq<Field>, from: seq<Value>, to: seq<Value>)
    requires IsTable(table) && IsState(table, from) && IsState(table, to)
    requires forall i :: 0 <= i < |table| ==> Keeps(p, table[i], from[i], to[i])
    ensures var loaded := ExpectedAll(p, table, from, to);
            && IsState(table, loaded)
            && (forall i :: 0 <= i < |table| ==> Written(p, table[i], loaded[i]) == Written(p, table[i], to[i]))
            && (forall i :: 0 <= i < |table| && Flagged(p, table, loaded, to, i) ==>
                  table[i].kind == Coord || table[i].kind == Velocity)
            && ((forall i :: 0 <= i < |table| ==> table[i].kind != Coord && table[i].kind != Velocity) ==>
                  Saved(p, table, loaded, to) == [Bool(false), Bool(false)])
  {
    var loaded := ExpectedAll(p, table, from, to);
    forall i | 0 <= i < |table|
      ensures HasType(table[i], loaded[i]) && Written(p, table[i], loaded[i]) == Written(p, table[i], to[i])
           && (DeltaNeeded(p, table[i], loaded[i], to[i]) ==> table[i].kind == Coord || table[i].kind == Velocity)
    {
      ValueKept(p, table[i], from[i], to[i]);
    }
  }

  // ---------------------------------------------------------------------------------------------
  // The two loops

  /** A message that is written at its end and read at a position. */
  class Message {
    var tokens: seq<Token>
    var pos: nat

    ghost predicate Valid()
      reads this
    {
      pos <= |tokens|
    }

    /** What is still to be read. */
    ghost function Rest(): seq<Token>
      requires Valid()
      reads this
    {
      tokens[pos..]
    }

    constructor (tokens: seq<Token>)
      ensures Valid() && this.tokens == tokens && pos == 0
    {
      this.tokens, pos := tokens, 0;
    }

    method Write(token: Token)
      modifies this`tokens
      ensures tokens == old(tokens) + [token]
    {
      tokens := tokens + [token];
    }

    /** The number of a field, as the loops in SaveDelta write it. */
    method WriteField(p: Packing, f: Field, v: Value)
      requires IsField(f) && HasType(f, v)
      modifies this`tokens
      ensures tokens == old(tokens) + Written(p, f, v)
    {
      ghost var before := tokens;
      match f.kind {
        case Regular => WriteNumberEntityField(f, v, p);
        case _ => Write(Number(p.pack(f, v.r), f.bits));
      }
    }

    method WriteNumberEntityField(f: Field, v: Value, ghost p: Packing)
      requires IsField(f) && HasType(f, v) && f.kind == Regular
      modifies this`tokens
      ensures tokens == old(tokens) + Written(p, f, v)
    {
      if f.bits == 0 {
        var truncFloat := Truncated(v.r);
        var hasValue := v.r != 0.0;
        Write(Bool(hasValue));
        if hasValue {
          var isPartial := truncFloat as real == v.r && 0 <= truncFloat + FLOAT_INT_BIAS < 0x2000;
          Write(Bool(!isPartial));
          if isPartial {
            Write(Number(truncFloat + FLOAT_INT_BIAS, FLOAT_INT_BITS));
          } else {
            Write(Full(v.r));
          }
        }
      } else {
        var hasValue := v.n != 0;
        Write(Bool(hasValue));
        if hasValue {
          Write(Number(Low(v.n, f.bits), f.bits));
        }
      }
    }

    /** SaveDelta, for a state that is not removed. */
    method SaveDelta(p: Packing, table: seq<Field>, from: seq<Value>, to: seq<Value>)
      requires IsTable(table) && IsState(table, from) && IsState(table, to)
      modifies this`tokens
      ensures tokens == old(tokens) + Saved(p, table, from, to)
    {
      ghost var before := tokens;
      Write(Bool(false));
      var lc, deltaNeededList := FindChanges(p, table, from, to);
      Write(Bool(lc > 0));
      if lc == 0 {
        return;
      }
      Write(Number(lc, 8));
      SaveFields(p, table, from, to, lc, deltaNeededList);
      ghost var header: seq<Token> := [Bool(false), Bool(true), Number(lc, 8)];
      assert tokens == before + header + FieldsFrom(p, table, from, to, 0, lc);
      assert tokens == before + (header + FieldsFrom(p, table, from, to, 0, lc));
    }

    /** Its second loop. */
    method SaveFields(p: Packing, table: seq<Field>, ghost from: seq<Value>, to: seq<Value>, lc: nat, list: seq<bool>)
      requires IsTable(table) && IsState(table, from) && IsState(table, to) && lc <= |table| == |list|
      requires forall k :: 0 <= k < |table| ==> list[k] == Flagged(p, table, from, to, k)
      modifies this`tokens
      ensures tokens == old(tokens) + FieldsFrom(p, table, from, to, 0, lc)
    {
      ghost var target := tokens + FieldsFrom(p, table, from, to, 0, lc);
      for i := 0 to lc
        invariant tokens + FieldsFrom(p, table, from, to, i, lc) == target
      {
        ghost var first, more := FieldTokens(p, table, from, to, i), FieldsFrom(p, table, from, to, i + 1, lc);
        assert tokens + (first + more) == (tokens + first) + more;
        SaveField(p, table, from, to, i, list[i]);
      }
      assert tokens + [] == tokens;
    }

    /** The body of that loop. */
    method SaveField(p: Packing, table: seq<Field>, ghost from: seq<Value>, to: seq<Value>, i: nat, isDiff: bool)
      requires IsTable(table) && IsState(table, from) && IsState(table, to) && i < |table|
      requires isDiff == Flagged(p, table, from, to, i)
      modifies this`tokens
      ensures tokens == old(tokens) + FieldTokens(p, table, from, to, i)
    {
      Write(Bool(isDiff));
      if isDiff {
        WriteField(p, table[i], to[i]);
      }
    }

    method ReadBool() returns (ok: bool, b: bool)
      requires Valid()
      modifies this`pos
      ensures Valid() && TakeBool(old(Rest())) == if ok then Read(b, Rest()) else Fails
    {
      ok, b := false, false;
      if pos < |tokens| && tokens[pos].Bool? {
        ok, b := true, tokens[pos].b;
        pos := pos + 1;
      }
    }

    method ReadNumber(bits: nat) returns (ok: bool, n: int)
      requires Valid()
      modifies this`pos
      ensures Valid() && TakeNumber(old(Rest()), bits) == if ok then Read(n, Rest()) else Fails
    {
      ok, n := false, 0;
      if pos < |tokens| && tokens[pos].Number? && tokens[pos].bits == bits {
        ok, n := true, tokens[pos].n;
        pos := pos + 1;
      }
    }

    method ReadFloat() returns (ok: bool, r: real)
      requires Valid()
      modifies this`pos
      ensures Valid() && TakeFull(old(Rest())) == if ok then Read(r, Rest()) else Fails
    {
      ok, r := false, 0.0;
      if pos < |tokens| && tokens[pos].Full? {
        ok, r := true, tokens[pos].r;
        pos := pos + 1;
      }
    }

    /** ReadRegular, for a float. */
    method ReadRegularFloat() returns (ok: bool, v: Value)
      requires Valid()
      modifies this`pos
      ensures Valid() && (ok ==> TakeRegularFloat(old(Rest())) == Read(v, Rest()))
      ensures !ok ==> TakeRegularFloat(old(Rest())) == Fails
    {
      v := Float(0.0);
      var hasValue;
      ok, hasValue := ReadBool();
      if !ok || !hasValue {
        return;
      }
      var isFullFloat;
      ok, isFullFloat := ReadBool();
      if !ok {
        return;
      }
      if isFullFloat {
        var r;
        ok, r := ReadFloat();
        v := Float(r);
      } else {
        var truncFloat;
        ok, truncFloat := ReadNumber(FLOAT_INT_BITS);
        v := Float((truncFloat - FLOAT_INT_BIAS) as real);
      }
    }

    /** ReadRegular, for an integer. */
    method ReadRegularInteger(bits: nat) returns (ok: bool, v: Value)
      requires Valid()
      modifies this`pos
      ensures Valid() && (ok ==> TakeRegularInteger(old(Rest()), bits) == Read(v, Rest()))
      ensures !ok ==> TakeRegularInteger(old(Rest()), bits) == Fails
    {
      v := Integer(0);
      var hasValue;
      ok, hasValue := ReadBool();
      if !ok || !hasValue {
        return;
      }
      var n;
      ok, n := ReadNumber(bits);
      if ok && 0 <= n < WORD_SIZE {
        v := Integer(n);
      } else {
        ok := false;
      }
    }

    method ReadField(p: Packing, f: Field) returns (ok: bool, v: Value)
      requires Valid()
      modifies this`pos
      ensures Valid() && (ok ==> TakeField(p, f, old(Rest())) == Read(v, Rest()))
      ensures !ok ==> TakeField(p, f, old(Rest())) == Fails
    {
      if f.kind == Regular {
        if f.bits == 0 {
          ok, v := ReadRegularFloat();
        } else {
          ok, v := ReadRegularInteger(f.bits);
        }
      } else {
        var packedValue;
        ok, packedValue := ReadNumber(if f.kind == AnimWeight || f.kind == Alpha then 8 else f.bits);
        v := Float(0.0);
        if ok && packedValue >= 0 {
          v := Float(p.unpack(f, packedValue));
        } else {
          ok := false;
        }
      }
    }

    /** The body of the loop in LoadDelta. */
    method LoadField(p: Packing, f: Field, from: Value) returns (ok: bool, v: Value)
      requires Valid()
      modifies this`pos
      ensures Valid() && (ok ==> TakeOne(p, f, from, old(Rest())) == Read(v, Rest()))
      ensures !ok ==> TakeOne(p, f, from, old(Rest())) == Fails
    {
      var isDiff;
      v := from;
      ok, isDiff := ReadBool();
      if ok && isDiff {
        ok, v := ReadField(p, f);
      }
    }

    /** The loop over the fields, and the copy of the others. */
    method LoadFields(p: Packing, table: seq<Field>, from: seq<Value>, lc: nat) returns (ok: bool, state: seq<Value>)
      requires Valid() && lc <= |table| == |from|
      modifies this`pos
      ensures Valid()
      ensures ok ==> |state| == |from| && state[lc..] == from[lc..]
                     && TakeFields(p, table, from, 0, lc, old(Rest())) == Read(state[..lc], Rest())
      ensures !ok ==> TakeFields(p, table, from, 0, lc, old(Rest())) == Fails
    {
      state := from;
      ghost var all := TakeFields(p, table, from, 0, lc, Rest());
      JoinNone(all);
      ok := true;
      for i := 0 to lc
        invariant Valid() && ok && |state| == |from|
        invariant forall k :: i <= k < |from| ==> state[k] == from[k]
        invariant all == Join(state[..i], TakeFields(p, table, from, i, lc, Rest()))
      {
        ghost var front := state[..i];
        var v;
        ok, v := LoadField(p, table[i], from[i]);
        if !ok {
          return;
        }
        JoinOne(front, v, TakeFields(p, table, from, i + 1, lc, Rest()));
        state := state[i := v];
        assert state[..i + 1] == front + [v];
      }
      assert state[..lc] + [] == state[..lc];
    }

    method ReadHeader() returns (ok: bool, header: Header)
      requires Valid()
      modifies this`pos
      ensures Valid() && (ok ==> TakeHeader(old(Rest())) == Read(header, Rest()))
      ensures !ok ==> TakeHeader(old(Rest())) == Fails
    {
      header := Gone;
      var removed, hasDelta, lc;
      ok, removed := ReadBool();
      if !ok || removed {
        return;
      }
      ok, hasDelta := ReadBool();
      if !ok || !hasDelta {
        header := Same;
        return;
      }
      ok, lc := ReadNumber(8);
      header := Changes(lc);
    }

    /** LoadDelta. */
    method LoadDelta(p: Packing, table: seq<Field>, from: seq<Value>) returns (ok: bool, loaded: Loaded)
      requires Valid() && |table| == |from|
      modifies this`pos
      ensures Valid() && (ok ==> Take(p, table, from, old(Rest())) == Read(loaded, Rest()))
      ensures !ok ==> Take(p, table, from, old(Rest())) == Fails
    {
      loaded := Removed;
      var header;
      ok, header := ReadHeader();
      if !ok || header == Gone {
        return;
      }
      if header == Same {
        loaded := State(from);
        return;
      }
      if !(0 <= header.lc <= |table|) {
        ok := false;
        return;
      }
      var state;
      ok, state := LoadFields(p, table, from, header.lc);
      if ok {
        assert state == state[..header.lc] + from[header.lc..];
        loaded := State(state);
      }
    }
  }

  lemma LastChangedNext(p: Packing, table: seq<Field>, from: seq<Value>, to: seq<Value>, i: nat)
    requires IsTable(table) && IsState(table, from) && IsState(table, to) && i < |table|
    ensures LastChanged(p, table, from, to, i + 1)
         == if DeltaNeeded(p, table[i], from[i], to[i]) then i + 1 else LastChanged(p, table, from, to, i)
    ensures Flagged(p, table, from, to, i) == DeltaNeeded(p, table[i], from[i], to[i])
  {
  }

  /** The first loop of SaveDelta. */
  method FindChanges(p: Packing, table: seq<Field>, from: seq<Value>, to: seq<Value>) returns (lc: nat, list: seq<bool>)
    requires IsTable(table) && IsState(table, from) && IsState(table, to)
    ensures lc == LastChanged(p, table, from, to, |table|)
    ensures |list| == |table| && forall k :: 0 <= k < |table| ==> list[k] == Flagged(p, table, from, to, k)
  {
    lc, list := 0, [];
    for i := 0 to |table|
      invariant lc == LastChanged(p, table, from, to, i)
      invariant |list| == i && forall k :: 0 <= k < i ==> list[k] == Flagged(p, table, from, to, k)
    {
      LastChangedNext(p, table, from, to, i);
      var deltaNeeded := DeltaNeeded(p, table[i], from[i], to[i]);
      list := list + [deltaNeeded];
      if deltaNeeded {
        lc := i + 1;
      }
    }
  }

  function Join(front: seq<Value>, read: Read<seq<Value>>): Read<seq<Value>> {
    match read
    case Fails => Fails
    case Read(vs, rest) => Read(front + vs, rest)
  }

  lemma JoinNone(read: Read<seq<Value>>)
    ensures Join([], read) == read
  {
    if read.Read? {
      assert [] + read.value == read.value;
    }
  }

  lemma JoinOne(front: seq<Value>, v: Value, read: Read<seq<Value>>)
    ensures Join(front, Join([v], read)) == Join(front + [v], read)
  {
    if read.Read? {
      assert front + ([v] + read.value) == (front + [v]) + read.value;
    }
  }

  /** A state saved and loaded against the same other one: it fails, or takes all and has the expected values. */
  method SaveAndLoad(p: Packing, table: seq<Field>, from: seq<Value>, to: seq<Value>) returns (ok: bool, loaded: Loaded)
    requires IsTable(table) && IsState(table, from) && IsState(table, to)
    ensures ok <==> WidthsAgree(p, table, from, to, 0, |table|)
    ensures ok ==> loaded == State(ExpectedAll(p, table, from, to))
  {
    var msg := new Message([]);
    msg.SaveDelta(p, table, from, to);
    SavedBack(p, table, from, to, []);
    assert msg.Rest() == Saved(p, table, from, to) + [];
    ok, loaded := msg.LoadDelta(p, table, from);
  }
}
