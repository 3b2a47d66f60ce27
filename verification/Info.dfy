/** Info strings: keys and values between backslashes (Utility/Info.cpp). */
module Info {
  const NUL: char := '\0'
  const SEPARATOR: char := '\\'

  datatype Pair = Pair(key: string, value: string)

  /** What can stand between two separators. */
  ghost predicate IsField(s: string) {
    forall i :: 0 <= i < |s| ==> s[i] != SEPARATOR && s[i] != NUL
  }

  ghost predicate ArePairs(pairs: seq<Pair>) {
    forall i :: 0 <= i < |pairs| ==> pairs[i].key != "" && IsField(pairs[i].key) && IsField(pairs[i].value)
  }

  ghost predicate Distinct(pairs: seq<Pair>) {
    forall i, j :: 0 <= i < j < |pairs| ==> pairs[i].key != pairs[j].key
  }

  function Written(p: Pair): string {
    [SEPARATOR] + p.key + [SEPARATOR] + p.value
  }

  function Text(pairs: seq<Pair>): string {
    if pairs == [] then "" else Written(pairs[0]) + Text(pairs[1..])
  }

  lemma {:induction false} TextSplit(a: seq<Pair>, b: seq<Pair>)
    ensures Text(a + b) == Text(a) + Text(b)
  {
    if a == [] {
      assert a + b == b;
    } else {
      assert (a + b)[1..] == a[1..] + b;
      TextSplit(a[1..], b);
    }
  }

  lemma TextOne(p: Pair)
    ensures Text([p]) == Written(p)
  {
    assert [p][1..] == [];
  }

  lemma TextUpTo(pairs: seq<Pair>, i: nat)
    requires i < |pairs|
    ensures Text(pairs[..i + 1]) == Text(pairs[..i]) + Written(pairs[i])
  {
    assert pairs[..i + 1] == pairs[..i] + [pairs[i]];
    TextSplit(pairs[..i], [pairs[i]]);
    TextOne(pairs[i]);
  }

  lemma Halves(pairs: seq<Pair>, i: nat)
    requires i <= |pairs|
    ensures pairs[..i] + pairs[i..] == pairs
  {
  }

  lemma TextAround(pairs: seq<Pair>, i: nat)
    requires i < |pairs|
    ensures Text(pairs) == Text(pairs[..i]) + Written(pairs[i]) + Text(pairs[i + 1..])
  {
    var front, rest := pairs[..i + 1], pairs[i + 1..];
    assert Text(pairs) == Text(front) + Text(rest) by {
      TextSplit(front, rest);
      Halves(pairs, i + 1);
    }
    TextUpTo(pairs, i);
  }

  /** Where the pair at place i starts. */
  function Place(pairs: seq<Pair>, i: nat): nat
    requires i <= |pairs|
  {
    |Text(pairs[..i])|
  }

  /** Where the value of a pair with this key starts. */
  function ValueStart(at: nat, key: string): nat {
    at + 2 + |key|
  }

  /** A pair in the text: where its fields are, and what is behind it. */
  ghost predicate PairAt(text: string, at: nat, p: Pair, rest: string) {
    var key, value := at + 1, ValueStart(at, p.key);
    && value + |p.value| <= |text|
    && text[at] == SEPARATOR && text[key..key + |p.key|] == p.key
    && text[key + |p.key|] == SEPARATOR && text[value..value + |p.value|] == p.value
    && text[value + |p.value|..] == rest
  }

  lemma Chunk(text: string, a: string, b: string, c: string)
    requires text == a + b + c
    ensures text[|a|..|a| + |b|] == b && text[|a| + |b|..] == c
  {
  }

  lemma PairBehind(text: string, front: string, p: Pair, rest: string)
    requires text == front + Written(p) + rest
    ensures PairAt(text, |front|, p, rest)
  {
    var one: string := [SEPARATOR];
    assert text == (front + one) + p.key + (one + p.value + rest);
    Chunk(text, front + one, p.key, one + p.value + rest);
    assert text == (front + one + p.key + one) + p.value + rest;
    Chunk(text, front + one + p.key + one, p.value, rest);
  }

  lemma PairInText(text: string, pairs: seq<Pair>, i: nat, end: string)
    requires i < |pairs| && text == Text(pairs) + end
    ensures PairAt(text, Place(pairs, i), pairs[i], Text(pairs[i + 1..]) + end)
    ensures Place(pairs, i + 1) == Place(pairs, i) + |Written(pairs[i])|
  {
    TextUpTo(pairs, i);
    TextAround(pairs, i);
    var front, rest := Text(pairs[..i]), Text(pairs[i + 1..]);
    assert text == front + Written(pairs[i]) + (rest + end);
    PairBehind(text, front, pairs[i], rest + end);
  }

  /** The text goes on with a separator, or ends with what is behind the pairs. */
  lemma RestStarts(pairs: seq<Pair>, i: nat, end: string)
    requires i <= |pairs|
    ensures var rest := Text(pairs[i..]) + end;
            if i < |pairs| then |rest| > 0 && rest[0] == SEPARATOR else rest == end
  {
  }

  // ---------------------------------------------------------------------------------------------
  // What the operations mean

  /** Without the first pair of a key. */
  function Without(pairs: seq<Pair>, key: string): seq<Pair> {
    if pairs == [] then []
    else if pairs[0].key == key then pairs[1..]
    else [pairs[0]] + Without(pairs[1..], key)
  }

  function Lookup(pairs: seq<Pair>, key: string): string {
    if pairs == [] then "" else if pairs[0].key == key then pairs[0].value else Lookup(pairs[1..], key)
  }

  lemma {:induction false} WithoutPlace(pairs: seq<Pair>, key: string, i: nat)
    requires i <= |pairs| && (forall j :: 0 <= j < i ==> pairs[j].key != key)
    requires i < |pairs| ==> pairs[i].key == key
    ensures Without(pairs, key) == if i < |pairs| then pairs[..i] + pairs[i + 1..] else pairs
  {
    if i > 0 {
      var rest := pairs[1..];
      WithoutPlace(rest, key, i - 1);
      if i < |pairs| {
        assert [pairs[0]] + rest[..i - 1] == pairs[..i] && rest[i..] == pairs[i + 1..];
      }
    }
  }

  lemma {:induction false} LookupPlace(pairs: seq<Pair>, key: string, i: nat)
    requires i <= |pairs| && (forall j :: 0 <= j < i ==> pairs[j].key != key)
    requires i < |pairs| ==> pairs[i].key == key
    ensures Lookup(pairs, key) == if i < |pairs| then pairs[i].value else ""
  {
    if i > 0 {
      LookupPlace(pairs[1..], key, i - 1);
    }
  }

  /** Removing and setting keep the pairs well formed and the keys distinct. */
  lemma {:induction false} WithoutKeeps(pairs: seq<Pair>, key: string)
    requires ArePairs(pairs) && Distinct(pairs)
    ensures ArePairs(Without(pairs, key)) && Distinct(Without(pairs, key))
    ensures forall i :: 0 <= i < |Without(pairs, key)| ==>
              Without(pairs, key)[i].key != key && Without(pairs, key)[i] in pairs
    ensures forall other :: other != key ==> Lookup(Without(pairs, key), other) == Lookup(pairs, other)
  {
    if pairs != [] {
      assert ArePairs(pairs[1..]) && Distinct(pairs[1..]);
      WithoutKeeps(pairs[1..], key);
    }
  }

  lemma {:induction false} LookupSplit(a: seq<Pair>, p: Pair, key: string)
    ensures Lookup(a + [p], key)
         == if exists i :: 0 <= i < |a| && a[i].key == key then Lookup(a, key)
            else if p.key == key then p.value else ""
  {
    if a != [] {
      assert (a + [p])[1..] == a[1..] + [p];
      LookupSplit(a[1..], p, key);
      if a[0].key != key && exists i :: 0 <= i < |a| && a[i].key == key {
        var i :| 0 <= i < |a| && a[i].key == key;
        assert a[1..][i - 1].key == key;
      }
    }
  }

  // ---------------------------------------------------------------------------------------------
  // Reading

  /** A place is the first separator from another on, or the end. */
  ghost predicate Scanned(text: string, at: nat, end: nat, stop: nat) {
    && at <= stop <= end <= |text|
    && (forall i :: at <= i < stop ==> text[i] != SEPARATOR)
    && (stop < end ==> text[stop] == SEPARATOR)
  }

  method ScanField(text: string, at: nat, end: nat) returns (stop: nat)
    requires at <= end <= |text|
    ensures Scanned(text, at, end, stop)
  {
    stop := at;
    while stop < end && text[stop] != SEPARATOR
      invariant at <= stop <= end
      invariant forall i :: at <= i < stop ==> text[i] != SEPARATOR
    {
      stop := stop + 1;
    }
  }

  /** The characters before the terminator, as a C string holds them. */
  function CString(text: string): string {
    if text == "" || text[0] == NUL then "" else [text[0]] + CString(text[1..])
  }

  lemma {:induction false} CStringSplit(s: string, rest: string)
    requires IsField(s)
    ensures CString(s + rest) == s + CString(rest)
  {
    if s == "" {
      assert s + rest == rest;
    } else {
      assert (s + rest)[1..] == s[1..] + rest;
      CStringSplit(s[1..], rest);
    }
  }

  /** The terminator, when the size that a reader is given counts it. */
  function Ending(counted: bool): string {
    if counted then [NUL] else ""
  }

  /** The value as a scan up to the size finds it: with the terminator, when it is last and the size counts it. */
  function ScannedValue(pairs: seq<Pair>, i: nat, counted: bool): string
    requires i < |pairs|
  {
    pairs[i].value + if i == |pairs| - 1 then Ending(counted) else ""
  }

  /** A field in a text: its characters, and a separator behind it unless the size ends there. */
  ghost predicate FieldAt(text: string, at: nat, field: string, size: nat) {
    && at + |field| <= size <= |text| && text[at..at + |field|] == field
    && (at + |field| < size ==> text[at + |field|] == SEPARATOR)
    && (forall i :: 0 <= i < |field| ==> field[i] != SEPARATOR)
  }

  /** A scan finds the end of a field. */
  lemma FieldEnds(text: string, at: nat, field: string, size: nat, stop: nat)
    requires FieldAt(text, at, field, size) && Scanned(text, at, size, stop)
    ensures stop == at + |field| && text[at..stop] == field
  {
    forall i | at <= i < at + |field|
      ensures text[i] != SEPARATOR
    {
      assert text[at..at + |field|][i - at] == field[i - at];
    }
  }

  ghost predicate IsInfo(text: string, size: nat, pairs: seq<Pair>, counted: bool) {
    text == Text(pairs) + [NUL] && ArePairs(pairs) && size == |Text(pairs) + Ending(counted)|
  }

  /** The pairs of a text with the places that they start at. */
  ghost predicate Laid(text: string, size: nat, pairs: seq<Pair>, places: seq<nat>, counted: bool) {
    && 0 < |text| && text[|text| - 1] == NUL && size <= |text| <= size + 1
    && |places| == |pairs| && (pairs == [] ==> |text| == 1 && (size == 1 <==> counted))
    && ArePairs(pairs)
    && (pairs != [] ==> places[0] == 0)
    && (forall i :: 0 <= i < |pairs| ==> LaidAt(text, size, pairs, places, counted, i))
  }

  ghost predicate LaidAt(text: string, size: nat, pairs: seq<Pair>, places: seq<nat>, counted: bool, i: nat)
    requires i < |pairs| == |places|
  {
    var next := if i < |pairs| - 1 then places[i + 1] else size;
    LaidPair(text, size, places[i], pairs[i], ScannedValue(pairs, i, counted), next)
  }

  /** A pair at a place in a text, with the value that a scan finds, and the place behind it. */
  ghost predicate LaidPair(text: string, size: nat, at: nat, p: Pair, scanned: string, next: nat) {
    && at + 1 + |p.key| < size <= |text| && text[at] == SEPARATOR
    && FieldAt(text, at + 1, p.key, size) && FieldAt(text, ValueStart(at, p.key), scanned, size)
    && ValueStart(at, p.key) + |scanned| == next
    && CutAt(text, ValueStart(at, p.key), |scanned|) == p.value
  }

  /** The string that is made of a place in a text, cut to a length. */
  function CutAt(text: string, start: nat, length: nat): string
    requires start <= |text|
  {
    var s := CString(text[start..]);
    if length < |s| then s[..length] else s
  }

  function PlacesOf(pairs: seq<Pair>): seq<nat> {
    seq(|pairs|, i requires 0 <= i < |pairs| => Place(pairs, i))
  }

  lemma InfoLaid(text: string, size: nat, pairs: seq<Pair>, counted: bool)
    requires IsInfo(text, size, pairs, counted)
    ensures Laid(text, size, pairs, PlacesOf(pairs), counted)
  {
    forall i | 0 <= i < |pairs|
      ensures LaidAt(text, size, pairs, PlacesOf(pairs), counted, i)
    {
      InfoLaidAt(text, size, pairs, counted, i);
    }
  }

  lemma InfoLaidAt(text: string, size: nat, pairs: seq<Pair>, counted: bool, i: nat)
    requires IsInfo(text, size, pairs, counted) && i < |pairs|
    ensures LaidAt(text, size, pairs, PlacesOf(pairs), counted, i)
  {
    var at, rest := Place(pairs, i), Text(pairs[i + 1..]) + [NUL];
    PairInText(text, pairs, i, [NUL]);
    RestStarts(pairs, i + 1, [NUL]);
    if i == |pairs| - 1 {
      assert rest == [NUL];
      LaidLast(text, size, at, pairs[i], counted);
    } else {
      assert ScannedValue(pairs, i, counted) == pairs[i].value;
      LaidMiddle(text, size, at, pairs[i], rest);
    }
  }

  lemma LaidMiddle(text: string, size: nat, at: nat, p: Pair, rest: string)
    requires PairAt(text, at, p, rest) && IsField(p.key) && IsField(p.value) && |rest| >= 2 && rest[0] == SEPARATOR
    requires size <= |text| <= size + 1
    ensures LaidPair(text, size, at, p, p.value, at + |Written(p)|)
  {
    var value := ValueStart(at, p.key);
    Rejoined(text, value, p.value, rest);
    CStringSplit(p.value, rest);
  }

  lemma LaidLast(text: string, size: nat, at: nat, p: Pair, counted: bool)
    requires PairAt(text, at, p, [NUL]) && IsField(p.key) && IsField(p.value)
    requires size == if counted then |text| else |text| - 1
    ensures LaidPair(text, size, at, p, p.value + Ending(counted), size)
  {
    var value := ValueStart(at, p.key);
    Rejoined(text, value, p.value, [NUL]);
    LastField(text, value, p.value, size, counted);
    LastCut(text, value, p.value, |p.value + Ending(counted)|);
  }

  lemma LastCut(text: string, at: nat, value: string, length: nat)
    requires IsField(value) && at + |value| <= |text| && text[at..] == value + [NUL] && length >= |value|
    ensures CutAt(text, at, length) == value
  {
    CStringSplit(value, [NUL]);
    assert CString([NUL]) == "" && value + "" == value;
  }

  lemma LastField(text: string, at: nat, value: string, size: nat, counted: bool)
    requires IsField(value) && at + |value| <= |text| && text[at..] == value + [NUL]
    requires size == if counted then |text| else |text| - 1
    ensures FieldAt(text, at, value + Ending(counted), size) && at + |value + Ending(counted)| == size
  {
    assert |text| == at + |value| + 1;
    assert text[at..at + |value|] == text[at..][..|value|];
    if counted {
      assert text[at..size] == text[at..];
    } else {
      assert value + Ending(counted) == value;
    }
  }

  lemma Rejoined(text: string, at: nat, value: string, rest: string)
    requires at + |value| <= |text| && text[at..at + |value|] == value && text[at + |value|..] == rest
    ensures text[at..] == value + rest
    ensures rest != "" ==> text[at + |value|] == rest[0]
  {
    assert text[at..] == text[at..at + |value|] + text[at + |value|..];
  }

  /** The loop over separators. */
  method SkipSeparators(text: string, at: nat) returns (p: nat)
    requires at < |text| && text[|text| - 1] == NUL
    ensures at <= p < |text| && text[p] != SEPARATOR
    ensures forall i :: at <= i < p ==> text[i] == SEPARATOR
  {
    p := at;
    while text[p] == SEPARATOR
      invariant at <= p < |text|
      invariant forall i :: at <= i < p ==> text[i] == SEPARATOR
      decreases |text| - p
    {
      p := p + 1;
    }
  }

  /** The places that one turn of the loop in ReadOnlyInfo.ValueForKey finds. */
  datatype Scan = Scan(startKey: nat, endKey: nat, startValue: nat, endValue: nat)

  ghost predicate IsScan(text: string, size: nat, pkey: nat, scan: Scan) {
    && pkey <= scan.startKey < |text| && text[scan.startKey] != SEPARATOR
    && (forall i :: pkey <= i < scan.startKey ==> text[i] == SEPARATOR)
    && Scanned(text, scan.startKey, size, scan.endKey)
    && scan.startValue == scan.endKey + 1
    && if scan.startValue <= size then Scanned(text, scan.startValue, size, scan.endValue)
       else scan.endValue == scan.startValue
  }

  method ScanPair(text: string, size: nat, pkey: nat) returns (scan: Scan)
    requires pkey < size <= |text| <= size + 1 && text[|text| - 1] == NUL
    ensures IsScan(text, size, pkey, scan)
  {
    var startKey := SkipSeparators(text, pkey);
    var endKey := ScanField(text, startKey, size);
    var startValue := endKey + 1;
    var endValue := startValue;
    if startValue <= size {
      endValue := ScanField(text, startValue, size);
    }
    scan := Scan(startKey, endKey, startValue, endValue);
  }

  lemma ScanFinds(text: string, size: nat, at: nat, key: string, value: string, scan: Scan)
    requires at < |text| && text[at] == SEPARATOR && key != ""
    requires FieldAt(text, at + 1, key, size) && FieldAt(text, ValueStart(at, key), value, size)
    requires IsScan(text, size, at, scan)
    ensures scan == Scan(at + 1, at + 1 + |key|, ValueStart(at, key), ValueStart(at, key) + |value|)
  {
    assert text[at + 1] == text[at + 1..at + 1 + |key|][0];
    FieldEnds(text, at + 1, key, size, scan.endKey);
    FieldEnds(text, scan.startValue, value, size, scan.endValue);
  }

  /** ReadOnlyInfo.ValueForKey: a key's value, by a scan over a text of a size that may count the terminator. */
  method ValueForKey(text: string, size: nat, key: string, ghost pairs: seq<Pair>, ghost counted: bool)
    returns (value: string)
    requires IsInfo(text, size, pairs, counted) && IsField(key)
    ensures value == Lookup(pairs, key)
  {
    InfoLaid(text, size, pairs, counted);
    value := ScanForKey(text, size, key, pairs, PlacesOf(pairs), counted);
  }

  lemma PlacesInside(text: string, size: nat, pairs: seq<Pair>, places: seq<nat>, counted: bool)
    requires Laid(text, size, pairs, places, counted)
    ensures forall i :: 0 <= i < |places| ==> places[i] < size
  {
    forall i | 0 <= i < |places|
      ensures places[i] < size
    {
      assert LaidAt(text, size, pairs, places, counted, i);
    }
  }

  lemma LaidPairFound(text: string, size: nat, at: nat, p: Pair, scanned: string, next: nat, scan: Scan)
    requires LaidPair(text, size, at, p, scanned, next) && p.key != "" && IsScan(text, size, at, scan)
    ensures text[scan.startKey..scan.endKey] == p.key && scan.startValue <= scan.endValue == next <= size
    ensures CutAt(text, scan.startValue, scan.endValue - scan.startValue) == p.value
  {
    ScanFinds(text, size, at, p.key, scanned, scan);
  }

  lemma PairFound(text: string, size: nat, pairs: seq<Pair>, places: seq<nat>, counted: bool, i: nat, scan: Scan)
    requires Laid(text, size, pairs, places, counted) && i < |pairs| && IsScan(text, size, places[i], scan)
    ensures text[scan.startKey..scan.endKey] == pairs[i].key && scan.startValue <= scan.endValue <= size
    ensures CutAt(text, scan.startValue, scan.endValue - scan.startValue) == pairs[i].value
    ensures scan.endValue == if i < |pairs| - 1 then places[i + 1] else size
    ensures i < |pairs| - 1 ==> scan.endValue < size
  {
    PlacesInside(text, size, pairs, places, counted);
    assert LaidAt(text, size, pairs, places, counted, i);
    LaidPairFound(text, size, places[i], pairs[i], ScannedValue(pairs, i, counted),
                  if i < |pairs| - 1 then places[i + 1] else size, scan);
  }

  method ScanForKey(text: string, size: nat, key: string, ghost pairs: seq<Pair>, ghost places: seq<nat>,
                    ghost counted: bool)
    returns (value: string)
    requires Laid(text, size, pairs, places, counted) && IsField(key)
    ensures value == Lookup(pairs, key)
  {
    PlacesInside(text, size, pairs, places, counted);
    var pkey: nat := 0;
    ghost var i: nat := 0;
    while pkey < size
      invariant i <= |pairs| && (forall j :: 0 <= j < i ==> pairs[j].key != key)
      invariant i < |pairs| ==> pkey == places[i] < size
      invariant i == |pairs| > 0 ==> pkey >= size
      decreases size + 1 - pkey
    {
      var scan := ScanPair(text, size, pkey);
      var keyLen := scan.endKey - scan.startKey;
      if i < |pairs| {
        PairFound(text, size, pairs, places, counted, i, scan);
      }
      if keyLen > 0 && keyLen == |key| && text[scan.startKey..scan.endKey] == key {
        assert i < |pairs|;
        LookupPlace(pairs, key, i);
        value := CutAt(text, scan.startValue, scan.endValue - scan.startValue);
        return;
      }
      pkey := scan.endValue;
      i := if i < |pairs| then i + 1 else i;
    }
    LookupPlace(pairs, key, |pairs|);
    value := "";
  }

  // ---------------------------------------------------------------------------------------------
  // The iterator

  /** What the iterator copies: the pairs, or the terminator alone when there are none and the size counts it. */
  function Entries(pairs: seq<Pair>, counted: bool): seq<Pair> {
    if pairs == [] then (if counted then [Pair([NUL], "")] else [])
    else seq(|pairs|, i requires 0 <= i < |pairs| => Pair(pairs[i].key, ScannedValue(pairs, i, counted)))
  }

  /** Where the iterator stands before an entry. */
  ghost function EntryPlace(places: seq<nat>, counted: bool, size: nat, i: nat): nat {
    if i < |places| then places[i] + 1 else if places == [] && counted && i == 0 then 0 else size
  }

  class InfoIterator {
    const text: string
    const size: nat
    var keyPtr: nat
    var live: bool
    var tmpKey: string
    var tmpValue: string

    /** The iterator is at an entry, or past the last one. */
    ghost predicate At(pairs: seq<Pair>, places: seq<nat>, counted: bool, i: nat)
      reads this
    {
      var entries := Entries(pairs, counted);
      && i <= |entries|
      && (live <==> i < |entries|)
      && (i < |entries| ==> entries[i] == Pair(tmpKey, tmpValue))
      && keyPtr == EntryPlace(places, counted, size, i + 1)
    }

    constructor (text: string, size: nat, ghost pairs: seq<Pair>, ghost places: seq<nat>, ghost counted: bool)
      requires Laid(text, size, pairs, places, counted)
      ensures this.text == text && this.size == size && At(pairs, places, counted, 0)
    {
      this.text, this.size := text, size;
      keyPtr, live, tmpKey, tmpValue := 0, false, "", "";
      new;
      keyPtr := SkipSeparators(text, 0);
      FirstEntry(text, size, pairs, places, counted, keyPtr);
      ParseInfo(pairs, places, counted, 0);
    }

    /** parseInfo. */
    method ParseInfo(ghost pairs: seq<Pair>, ghost places: seq<nat>, ghost counted: bool, ghost i: nat)
      requires Laid(text, size, pairs, places, counted) && i <= |Entries(pairs, counted)|
      requires keyPtr == EntryPlace(places, counted, size, i)
      modifies this
      ensures At(pairs, places, counted, i)
    {
      EntryInside(text, size, pairs, places, counted, i);
      if keyPtr >= size {
        live := false;
        return;
      }
      var p1 := keyPtr;
      var endP1 := ScanField(text, p1, size);
      var p2 := if endP1 < size then endP1 + 1 else endP1;
      var endP2 := ScanField(text, p2, size);
      EntryScanned(text, size, pairs, places, counted, i, p1, endP1, p2, endP2);
      keyPtr := if endP2 < size then endP2 + 1 else endP2;
      tmpKey, tmpValue, live := text[p1..endP1], text[p2..endP2], true;
    }
  }

  lemma FirstEntry(text: string, size: nat, pairs: seq<Pair>, places: seq<nat>, counted: bool, p: nat)
    requires Laid(text, size, pairs, places, counted)
    requires p < |text| && text[p] != SEPARATOR && (forall i :: 0 <= i < p ==> text[i] == SEPARATOR)
    ensures p == EntryPlace(places, counted, size, 0)
  {
    if pairs != [] {
      assert LaidAt(text, size, pairs, places, counted, 0);
      assert text[1] == text[1..1 + |pairs[0].key|][0];
    }
  }

  lemma EntryInside(text: string, size: nat, pairs: seq<Pair>, places: seq<nat>, counted: bool, i: nat)
    requires Laid(text, size, pairs, places, counted) && i <= |Entries(pairs, counted)|
    ensures EntryPlace(places, counted, size, i) >= size <==> i == |Entries(pairs, counted)|
    ensures EntryPlace(places, counted, size, i + 1) == size || i < |Entries(pairs, counted)|
  {
    if i < |pairs| {
      assert LaidAt(text, size, pairs, places, counted, i);
    }
  }

  lemma EntryScanned(text: string, size: nat, pairs: seq<Pair>, places: seq<nat>, counted: bool, i: nat,
                     p1: nat, endP1: nat, p2: nat, endP2: nat)
    requires Laid(text, size, pairs, places, counted) && i < |Entries(pairs, counted)|
    requires p1 == EntryPlace(places, counted, size, i) && Scanned(text, p1, size, endP1)
    requires p2 == (if endP1 < size then endP1 + 1 else endP1) && Scanned(text, p2, size, endP2)
    ensures Entries(pairs, counted)[i] == Pair(text[p1..endP1], text[p2..endP2])
    ensures EntryPlace(places, counted, size, i + 1) == if endP2 < size then endP2 + 1 else endP2
  {
    if pairs != [] {
      EntryEnds(text, size, pairs, places, counted, i, endP1, endP2);
    }
  }

  lemma LaidPairEnds(text: string, size: nat, at: nat, p: Pair, scanned: string, next: nat, endP1: nat, endP2: nat)
    requires LaidPair(text, size, at, p, scanned, next)
    requires Scanned(text, at + 1, size, endP1)
    requires endP1 < size ==> Scanned(text, endP1 + 1, size, endP2)
    ensures endP1 == at + 1 + |p.key| < size && text[at + 1..endP1] == p.key
    ensures endP1 + 1 <= endP2 == next <= size && text[endP1 + 1..endP2] == scanned
  {
    FieldEnds(text, at + 1, p.key, size, endP1);
    FieldEnds(text, endP1 + 1, scanned, size, endP2);
  }

  lemma EntryEnds(text: string, size: nat, pairs: seq<Pair>, places: seq<nat>, counted: bool, i: nat,
                  endP1: nat, endP2: nat)
    requires Laid(text, size, pairs, places, counted) && i < |pairs|
    requires Scanned(text, places[i] + 1, size, endP1)
    requires endP1 < size ==> Scanned(text, endP1 + 1, size, endP2)
    ensures endP1 == places[i] + 1 + |pairs[i].key| < size
    ensures text[places[i] + 1..endP1] == pairs[i].key
    ensures text[endP1 + 1..endP2] == ScannedValue(pairs, i, counted)
    ensures endP2 == if i < |pairs| - 1 then places[i + 1] else size
    ensures i < |pairs| - 1 ==> endP2 < size
  {
    PlacesInside(text, size, pairs, places, counted);
    assert LaidAt(text, size, pairs, places, counted, i);
    LaidPairEnds(text, size, places[i], pairs[i], ScannedValue(pairs, i, counted),
                 if i < |pairs| - 1 then places[i + 1] else size, endP1, endP2);
  }

  /** A loop over the iterator, with the keys and values as C strings. */
  method Enumerate(text: string, size: nat, ghost pairs: seq<Pair>, ghost counted: bool) returns (listed: seq<Pair>)
    requires IsInfo(text, size, pairs, counted)
    ensures listed == if pairs == [] && counted then [Pair("", "")] else pairs
  {
    InfoLaid(text, size, pairs, counted);
    listed := EnumerateLaid(text, size, pairs, PlacesOf(pairs), counted);
    EntriesRead(pairs, counted);
  }

  method EnumerateLaid(text: string, size: nat, ghost pairs: seq<Pair>, ghost places: seq<nat>, ghost counted: bool)
    returns (listed: seq<Pair>)
    requires Laid(text, size, pairs, places, counted)
    ensures listed == Read(Entries(pairs, counted))
  {
    listed := [];
    ghost var entries, i: nat := Entries(pairs, counted), 0;
    var it := new InfoIterator(text, size, pairs, places, counted);
    while it.live
      invariant it.text == text && it.size == size && it.At(pairs, places, counted, i) && fresh(it)
      invariant listed == Read(entries[..i])
      decreases |entries| - i
    {
      listed := listed + [Pair(CString(it.tmpKey), CString(it.tmpValue))];
      assert entries[..i + 1] == entries[..i] + [Pair(it.tmpKey, it.tmpValue)];
      i := i + 1;
      it.ParseInfo(pairs, places, counted, i);
    }
    assert entries[..i] == entries;
  }

  /** The entries as C strings. */
  function Read(entries: seq<Pair>): (r: seq<Pair>)
    ensures |r| == |entries|
  {
    seq(|entries|, i requires 0 <= i < |entries| => Pair(CString(entries[i].key), CString(entries[i].value)))
  }

  lemma EntriesRead(pairs: seq<Pair>, counted: bool)
    requires ArePairs(pairs)
    ensures Read(Entries(pairs, counted)) == if pairs == [] && counted then [Pair("", "")] else pairs
  {
    var entries := Entries(pairs, counted);
    forall i | 0 <= i < |pairs|
      ensures CString(entries[i].key) == pairs[i].key && CString(entries[i].value) == pairs[i].value
    {
      CStringSplit(pairs[i].key, "");
      CStringSplit(pairs[i].value, "");
      CStringSplit(pairs[i].value, [NUL]);
      assert pairs[i].key + "" == pairs[i].key && pairs[i].value + "" == pairs[i].value;
    }
  }

  // ---------------------------------------------------------------------------------------------
  // The editor

  lemma {:induction false} OnlyOneTerminator(pairs: seq<Pair>)
    requires ArePairs(pairs)
    ensures forall i :: 0 <= i < |Text(pairs)| ==> Text(pairs)[i] != NUL
  {
    if pairs != [] {
      assert ArePairs(pairs[1..]);
      OnlyOneTerminator(pairs[1..]);
    }
  }

  /** The first separator or terminator from a place on. */
  method ScanString(text: string, at: nat) returns (stop: nat)
    requires at < |text| && text[|text| - 1] == NUL && (forall i :: 0 <= i < |text| - 1 ==> text[i] != NUL)
    ensures Scanned(text, at, |text| - 1, stop)
  {
    stop := at;
    while text[stop] != NUL && text[stop] != SEPARATOR
      invariant at <= stop < |text|
      invariant forall i :: at <= i < stop ==> text[i] != SEPARATOR
      decreases |text| - stop
    {
      stop := stop + 1;
    }
  }

  /** One turn of the loop of RemoveKey: the pair at a place, whether it is the key's, and where it ends. */
  method TryPair(text: string, key: string, startKey: nat, ghost p: Pair, ghost next: nat)
    returns (same: bool, endValue: nat)
    requires |text| > 0 && text[|text| - 1] == NUL && (forall i :: 0 <= i < |text| - 1 ==> text[i] != NUL)
    requires LaidPair(text, |text| - 1, startKey, p, p.value, next)
    ensures same <==> p.key == key
    ensures endValue == next == startKey + |Written(p)|
  {
    var pkey := startKey;
    if text[pkey] == SEPARATOR {
      pkey := pkey + 1;
    }
    var endKey := ScanString(text, pkey);
    FieldEnds(text, pkey, p.key, |text| - 1, endKey);
    endValue := ScanString(text, endKey + 1);
    FieldEnds(text, endKey + 1, p.value, |text| - 1, endValue);
    same := endKey - pkey == |key| && text[pkey..endKey] == key;
  }

  lemma LaidNext(text: string, size: nat, pairs: seq<Pair>, places: seq<nat>, i: nat)
    requires Laid(text, size, pairs, places, false) && i < |pairs|
    ensures places[i] < size
    ensures LaidPair(text, size, places[i], pairs[i], pairs[i].value, if i < |pairs| - 1 then places[i + 1] else size)
  {
    PlacesInside(text, size, pairs, places, false);
    assert LaidAt(text, size, pairs, places, false, i);
    assert pairs[i].value + "" == pairs[i].value;
  }

  ghost predicate NoneBefore(pairs: seq<Pair>, key: string, i: nat) {
    i <= |pairs| && forall j :: 0 <= j < i ==> pairs[j].key != key
  }

  /** The loop of RemoveKey: where the pair of a key starts and ends. */
  method FindKey(text: string, key: string, ghost pairs: seq<Pair>, ghost places: seq<nat>)
    returns (found: bool, startKey: nat, endValue: nat, ghost i: nat)
    requires |text| > 0 && Laid(text, |text| - 1, pairs, places, false)
    requires forall i :: 0 <= i < |text| - 1 ==> text[i] != NUL
    ensures NoneBefore(pairs, key, i)
    ensures found <==> i < |pairs|
    ensures found ==> pairs[i].key == key && startKey == places[i] && endValue == places[i] + |Written(pairs[i])|
    ensures found <==> exists j :: 0 <= j < |pairs| && pairs[j].key == key
  {
    var pkey: nat := 0;
    i := 0;
    startKey, endValue := 0, 0;
    PlacesInside(text, |text| - 1, pairs, places, false);
    while text[pkey] != NUL
      invariant NoneBefore(pairs, key, i)
      invariant pkey == if i < |pairs| then places[i] else |text| - 1
      decreases |pairs| - i
    {
      startKey := pkey;
      LaidNext(text, |text| - 1, pairs, places, i);
      var same;
      same, endValue := TryPair(text, key, startKey, pairs[i], if i < |pairs| - 1 then places[i + 1] else |text| - 1);
      if same {
        return true, startKey, endValue, i;
      }
      pkey := endValue;
      i := i + 1;
    }
    found := false;
  }

  /** The text without one of its pairs. */
  lemma TextRemoved(text: string, pairs: seq<Pair>, i: nat)
    requires i < |pairs| && text == Text(pairs) + [NUL]
    ensures Place(pairs, i) + |Written(pairs[i])| <= |text|
    ensures text[..Place(pairs, i)] + text[Place(pairs, i) + |Written(pairs[i])|..]
         == Text(pairs[..i] + pairs[i + 1..]) + [NUL]
  {
    TextAround(pairs, i);
    TextSplit(pairs[..i], pairs[i + 1..]);
    var front, written, rest := Text(pairs[..i]), Written(pairs[i]), Text(pairs[i + 1..]) + [NUL];
    assert text == front + written + rest;
  }

  lemma TextAppended(text: string, pairs: seq<Pair>, p: Pair)
    requires text == Text(pairs)
    ensures text + ([SEPARATOR] + p.key + [SEPARATOR] + p.value) == Text(pairs + [p])
  {
    TextSplit(pairs, [p]);
    TextOne(p);
  }

  /** A buffer that is not there yet has length 0. */
  class Info {
    var keyBuffer: array<char>
    var size: nat

    /** The pairs in the buffer. */
    ghost var pairs: seq<Pair>

    ghost predicate Valid()
      reads this, keyBuffer
    {
      && ArePairs(pairs) && Distinct(pairs)
      && (keyBuffer.Length == 0 ==> size == 0 && pairs == [])
      && (keyBuffer.Length > 0 ==> 0 < size <= keyBuffer.Length && keyBuffer[..size] == Text(pairs) + [NUL])
    }

    constructor ()
      ensures Valid() && pairs == [] && fresh(keyBuffer)
    {
      keyBuffer := new char[0];
      size, pairs := 0, [];
    }

    /** RemoveKey. */
    method RemoveKey(key: string)
      requires Valid()
      modifies this`size, this`pairs, keyBuffer
      ensures Valid() && pairs == Without(old(pairs), key)
    {
      if keyBuffer.Length == 0 {
        return;
      }
      if SEPARATOR in key {
        WithoutPlace(pairs, key, |pairs|);
        return;
      }
      var text := keyBuffer[..size];
      OnlyOneTerminator(pairs);
      InfoLaid(text, |text| - 1, pairs, false);
      var found, startKey, endValue, i := FindKey(text, key, pairs, PlacesOf(pairs));
      WithoutPlace(pairs, key, i);
      WithoutKeeps(pairs, key);
      if found {
        RemoveAt(i, startKey, endValue);
        pairs := pairs[..i] + pairs[i + 1..];
      }
    }

    /** The pair at a place moved out of the buffer. */
    method RemoveAt(ghost i: nat, startKey: nat, endValue: nat)
      requires Valid() && i < |pairs| && keyBuffer.Length > 0
      requires startKey == Place(pairs, i) && endValue == startKey + |Written(pairs[i])|
      modifies this`size, keyBuffer
      ensures 0 < size <= keyBuffer.Length
      ensures keyBuffer[..size] == Text(pairs[..i] + pairs[i + 1..]) + [NUL]
    {
      TextRemoved(keyBuffer[..size], pairs, i);
      CloseGap(startKey, endValue);
    }

    /** The move of the rest of the buffer over a pair. */
    method CloseGap(startKey: nat, endValue: nat)
      requires startKey <= endValue <= size <= keyBuffer.Length
      modifies this`size, keyBuffer
      ensures size == old(size) - (endValue - startKey) <= keyBuffer.Length
      ensures keyBuffer[..size] == old(keyBuffer[..size])[..startKey] + old(keyBuffer[..size])[endValue..]
    {
      var rest := keyBuffer[endValue..size];
      forall k | 0 <= k < |rest| {
        keyBuffer[startKey + k] := rest[k];
      }
      size := size - (endValue - startKey);
    }

    /** SetValueForKey; an empty key is ignored. */
    method SetValueForKey(key: string, value: string)
      requires Valid() && IsField(key) && IsField(value)
      modifies this, keyBuffer
      ensures Valid() && fresh({keyBuffer} - {old(keyBuffer)})
      ensures keyBuffer.Length >= old(keyBuffer.Length) && (key != "" ==> keyBuffer.Length > 0)
      ensures pairs == if key == "" then old(pairs) else Without(old(pairs), key) + [Pair(key, value)]
    {
      if key == "" {
        return;
      }
      WithoutKeeps(pairs, key);
      RemoveKey(key);
      var p := Pair(key, value);
      TextAppended(Text(pairs), pairs, p);
      var sizeNoNul: nat := if size > 0 then size - 1 else 0;
      ghost var front := keyBuffer[..sizeNoNul];
      assert front == Text(pairs);
      var newsz := sizeNoNul + 1 + |key| + 1 + |value| + 1;
      if newsz > keyBuffer.Length {
        Reallocate(newsz, sizeNoNul);
      }
      Append(sizeNoNul, key, value);
      size := newsz;
      AppendKeeps(pairs, p);
      pairs := pairs + [p];
    }

    /** A new buffer that begins with the text of the old one. */
    method Reallocate(newsz: nat, sizeNoNul: nat)
      requires sizeNoNul <= keyBuffer.Length < newsz
      modifies this`keyBuffer
      ensures fresh(keyBuffer) && keyBuffer.Length == newsz
      ensures keyBuffer[..sizeNoNul] == old(keyBuffer[..sizeNoNul])
    {
      var newBuf := new char[newsz];
      forall k | 0 <= k < sizeNoNul {
        newBuf[k] := keyBuffer[k];
      }
      keyBuffer := newBuf;
    }

    /** A pair and the terminator written behind the text. */
    method Append(at: nat, key: string, value: string)
      requires at + |key| + |value| + 3 <= keyBuffer.Length
      modifies keyBuffer
      ensures keyBuffer[..at + |key| + |value| + 3]
           == old(keyBuffer[..at]) + ([SEPARATOR] + key + [SEPARATOR] + value) + [NUL]
    {
      var pbuf := at;
      keyBuffer[pbuf] := SEPARATOR;
      pbuf := pbuf + 1;
      CopyTo(pbuf, key);
      pbuf := pbuf + |key|;
      keyBuffer[pbuf] := SEPARATOR;
      pbuf := pbuf + 1;
      CopyTo(pbuf, value + [NUL]);
    }

    method CopyTo(at: nat, s: string)
      requires at + |s| <= keyBuffer.Length
      modifies keyBuffer
      ensures forall k :: 0 <= k < keyBuffer.Length ==>
                keyBuffer[k] == if at <= k < at + |s| then s[k - at] else old(keyBuffer[k])
    {
      forall k | 0 <= k < |s| {
        keyBuffer[at + k] := s[k];
      }
    }
  }

  lemma AppendKeeps(pairs: seq<Pair>, p: Pair)
    requires ArePairs(pairs) && Distinct(pairs) && p.key != "" && IsField(p.key) && IsField(p.value)
    requires forall i :: 0 <= i < |pairs| ==> pairs[i].key != p.key
    ensures ArePairs(pairs + [p]) && Distinct(pairs + [p])
  {
  }

  // ---------------------------------------------------------------------------------------------
  // Whole runs

  datatype Edit = SetKey(key: string, value: string) | Remove(key: string)

  /** The last value set for a key and not removed since. */
  function LastValue(edits: seq<Edit>, key: string): string {
    if edits == [] then ""
    else
      var last := edits[|edits| - 1];
      if last.key == key then (if last.SetKey? then last.value else "") else LastValue(edits[..|edits| - 1], key)
  }

  /** The pairs after a run: every live key once, in the order in which they were last set. */
  function PairsAfter(edits: seq<Edit>): seq<Pair> {
    if edits == [] then []
    else
      var before, last := PairsAfter(edits[..|edits| - 1]), edits[|edits| - 1];
      Without(before, last.key) + if last.SetKey? then [Pair(last.key, last.value)] else []
  }

  ghost predicate AreEdits(edits: seq<Edit>) {
    forall i :: 0 <= i < |edits| ==>
      && edits[i].key != "" && IsField(edits[i].key)
      && (edits[i].SetKey? ==> IsField(edits[i].value))
  }

  /** In the pairs after a run, a key has the last value that was set for it. */
  lemma {:induction false} PairsTell(edits: seq<Edit>, key: string)
    requires AreEdits(edits)
    ensures ArePairs(PairsAfter(edits)) && Distinct(PairsAfter(edits))
    ensures Lookup(PairsAfter(edits), key) == LastValue(edits, key)
  {
    if edits != [] {
      var front, last := edits[..|edits| - 1], edits[|edits| - 1];
      PairsTell(front, key);
      var before := PairsAfter(front);
      var less := Without(before, last.key);
      WithoutKeeps(before, last.key);
      if last.key == key {
        NotThere(less, key);
      } else {
        assert Lookup(less, key) == Lookup(before, key);
      }
      if last.SetKey? {
        var p := Pair(last.key, last.value);
        assert PairsAfter(edits) == less + [p];
        AppendKeeps(less, p);
        LookupSplit(less, p, key);
        if forall i :: 0 <= i < |less| ==> less[i].key != key {
          NotThere(less, key);
        }
      } else {
        assert PairsAfter(edits) == less + [] == less;
      }
    }
  }

  lemma NotThere(pairs: seq<Pair>, key: string)
    requires forall i :: 0 <= i < |pairs| ==> pairs[i].key != key
    ensures Lookup(pairs, key) == ""
  {
    LookupPlace(pairs, key, |pairs|);
  }

  /** Some value was set, so that there is a buffer. */
  predicate AnySet(edits: seq<Edit>) {
    edits != [] && (edits[|edits| - 1].SetKey? || AnySet(edits[..|edits| - 1]))
  }

  lemma AfterOne(edits: seq<Edit>, i: nat)
    requires i < |edits|
    ensures var before := PairsAfter(edits[..i]);
            PairsAfter(edits[..i + 1])
            == match edits[i]
               case SetKey(key, value) => Without(before, key) + [Pair(key, value)]
               case Remove(key) => Without(before, key)
    ensures AnySet(edits[..i + 1]) ==> AnySet(edits[..i]) || edits[i].SetKey?
  {
    assert edits[..i + 1][..i] == edits[..i];
  }

  /** A run of edits. */
  method EditAll(edits: seq<Edit>) returns (info: Info)
    requires AreEdits(edits)
    ensures fresh(info) && info.Valid() && info.pairs == PairsAfter(edits)
    ensures AnySet(edits) ==> info.keyBuffer.Length > 0
  {
    info := new Info();
    for i := 0 to |edits|
      invariant fresh(info) && fresh(info.keyBuffer) && info.Valid() && info.pairs == PairsAfter(edits[..i])
      invariant AnySet(edits[..i]) ==> info.keyBuffer.Length > 0
    {
      AfterOne(edits, i);
      match edits[i]
      case SetKey(key, value) => info.SetValueForKey(key, value);
      case Remove(key) => info.RemoveKey(key);
    }
    assert edits[..|edits|] == edits;
  }

  /**
   * After any run of edits that set some value, a lookup finds the last value set for a key, and the iterator
   * lists the live pairs once each, in the order in which they were last set. When all of them were removed
   * again, the iterator lists one pair of empty strings instead of nothing.
   */
  method EditAndRead(edits: seq<Edit>, key: string) returns (value: string, listed: seq<Pair>)
    requires AreEdits(edits) && AnySet(edits) && IsField(key)
    ensures value == LastValue(edits, key)
    ensures listed == if PairsAfter(edits) == [] then [Pair("", "")] else PairsAfter(edits)
  {
    var info := EditAll(edits);
    PairsTell(edits, key);
    var text := info.keyBuffer[..info.size];
    value := ValueForKey(text, info.size, key, info.pairs, true);
    listed := Enumerate(text, info.size, info.pairs, true);
  }
}
