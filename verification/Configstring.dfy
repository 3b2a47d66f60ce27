/** The packed pool of config-strings (Types/Configstring.cpp). */
module Configstring {
  const NUL: char := '\0'

  /** What a C string holds: no terminator inside. */
  ghost predicate IsText(s: string) {
    forall i :: 0 <= i < |s| ==> s[i] != NUL
  }

  // ---------------------------------------------------------------------------------------------
  // The layout of the pool

  /** A string in the pool, and the number it belongs to. */
  datatype Entry = Entry(num: nat, s: string)

  /** The strings with their terminators, one behind the other. */
  function Pack(entries: seq<Entry>): string {
    if entries == [] then "" else entries[0].s + [NUL] + Pack(entries[1..])
  }

  lemma {:induction false} PackSplit(a: seq<Entry>, b: seq<Entry>)
    ensures Pack(a + b) == Pack(a) + Pack(b)
  {
    if a == [] {
      assert a + b == b;
    } else {
      assert (a + b)[1..] == a[1..] + b;
      PackSplit(a[1..], b);
    }
  }

  lemma PackAround(entries: seq<Entry>, p: nat)
    requires p < |entries|
    ensures Pack(entries) == Pack(entries[..p]) + (entries[p].s + [NUL] + Pack(entries[p + 1..]))
  {
    assert entries == entries[..p] + entries[p..];
    PackSplit(entries[..p], entries[p..]);
  }

  /** Where the string at place p starts in the pool. */
  function Start(entries: seq<Entry>, p: nat): (o: nat)
    requires p <= |entries|
    ensures o >= 1
  {
    1 + |Pack(entries[..p])|
  }

  lemma StartsApart(entries: seq<Entry>, p: nat, j: nat)
    requires p < j <= |entries|
    ensures Start(entries, j) == Start(entries, p) + |entries[p].s| + 1 + |Pack(entries[p + 1..j])|
  {
    assert entries[..j] == entries[..p] + entries[p..j];
    PackSplit(entries[..p], entries[p..j]);
    assert entries[p..j][1..] == entries[p + 1..j];
  }

  /** Every entry holds a string, and no number twice. */
  ghost predicate AreEntries(entries: seq<Entry>) {
    && (forall i :: 0 <= i < |entries| ==> entries[i].s != "" && IsText(entries[i].s))
    && (forall i, j :: 0 <= i < j < |entries| ==> entries[i].num != entries[j].num)
  }

  ghost predicate Listed(entries: seq<Entry>, n: nat) {
    exists i :: 0 <= i < |entries| && entries[i].num == n
  }

  /** A number's offset is where its string starts, or 0 when it has none. */
  ghost predicate Offsets(offsets: seq<int>, entries: seq<Entry>) {
    && (forall i :: 0 <= i < |entries| ==>
          entries[i].num < |offsets| && offsets[entries[i].num] == Start(entries, i))
    && (forall n :: 0 <= n < |offsets| && !Listed(entries, n) ==> offsets[n] == 0)
  }

  /** The string of every number, the empty one for a number without. */
  ghost predicate Texts(text: seq<string>, entries: seq<Entry>) {
    && (forall i :: 0 <= i < |entries| ==> entries[i].num < |text| && text[entries[i].num] == entries[i].s)
    && (forall n :: 0 <= n < |text| && !Listed(entries, n) ==> text[n] == "")
  }

  /** The largest number that has a string, or 0. */
  ghost predicate IsHighest(highest: nat, entries: seq<Entry>) {
    && (forall i :: 0 <= i < |entries| ==> entries[i].num <= highest)
    && (highest == 0 || Listed(entries, highest))
  }

  /** The offsets from a target on moved by a difference. */
  function Shifted(offsets: seq<int>, target: int, diff: int): (r: seq<int>)
    ensures |r| == |offsets|
  {
    seq(|offsets|, i requires 0 <= i < |offsets| => if offsets[i] >= target then offsets[i] + diff else offsets[i])
  }

  lemma ListedReplaced(entries: seq<Entry>, p: nat, s: string, n: nat)
    requires p < |entries|
    ensures Listed(entries, n) <==> Listed(entries[p := Entry(entries[p].num, s)], n)
  {
    var more := entries[p := Entry(entries[p].num, s)];
    assert forall i :: 0 <= i < |entries| ==> more[i].num == entries[i].num;
  }

  lemma ListedRemoved(entries: seq<Entry>, p: nat, n: nat)
    requires p < |entries| && AreEntries(entries)
    ensures Listed(entries[..p] + entries[p + 1..], n) <==> Listed(entries, n) && n != entries[p].num
  {
    var fewer := entries[..p] + entries[p + 1..];
    if Listed(entries, n) && n != entries[p].num {
      var i :| 0 <= i < |entries| && entries[i].num == n;
      assert fewer[if i < p then i else i - 1] == entries[i];
    }
  }

  lemma ListedAppended(entries: seq<Entry>, e: Entry, n: nat)
    ensures Listed(entries + [e], n) <==> Listed(entries, n) || n == e.num
  {
    var more := entries + [e];
    assert more[|entries|] == e;
    assert forall i :: 0 <= i < |entries| ==> more[i] == entries[i];
  }

  /** A string at place p replaced by another: the later offsets move. */
  lemma Replaced(offsets: seq<int>, entries: seq<Entry>, p: nat, s: string)
    requires Offsets(offsets, entries) && AreEntries(entries) && p < |entries|
    requires IsText(s) && s != ""
    ensures var e := entries[p];
            var more := entries[p := Entry(e.num, s)];
            && AreEntries(more)
            && Offsets(Shifted(offsets, Start(entries, p) + |e.s| + 1, |s| - |e.s|), more)
  {
    var e := entries[p];
    var more := entries[p := Entry(e.num, s)];
    var offsets' := Shifted(offsets, Start(entries, p) + |e.s| + 1, |s| - |e.s|);
    forall j | 0 <= j < |more|
      ensures more[j].num < |offsets'| && offsets'[more[j].num] == Start(more, j)
    {
      if j <= p {
        assert more[..j] == entries[..j];
        if j < p {
          StartsApart(entries, j, p);
        }
      } else {
        StartsApart(entries, p, j);
        StartsApart(more, p, j);
        assert more[..p] == entries[..p] && more[p + 1..j] == entries[p + 1..j];
      }
    }
    forall n | 0 <= n < |offsets'| && !Listed(more, n)
      ensures offsets'[n] == 0
    {
      ListedReplaced(entries, p, s, n);
    }
  }

  /** The string at place p removed: its offset is cleared and the later ones move. */
  lemma Removed(offsets: seq<int>, entries: seq<Entry>, p: nat)
    requires Offsets(offsets, entries) && AreEntries(entries) && p < |entries|
    ensures var e := entries[p];
            var fewer := entries[..p] + entries[p + 1..];
            && AreEntries(fewer)
            && Offsets(Shifted(offsets[e.num := 0], Start(entries, p) + |e.s| + 1, -|e.s| - 1), fewer)
  {
    var e := entries[p];
    var fewer := entries[..p] + entries[p + 1..];
    var offsets' := Shifted(offsets[e.num := 0], Start(entries, p) + |e.s| + 1, -|e.s| - 1);
    forall j | 0 <= j < |fewer|
      ensures fewer[j].num < |offsets'| && offsets'[fewer[j].num] == Start(fewer, j)
    {
      RemovedStart(entries, p, j);
    }
    forall n | 0 <= n < |offsets'| && !Listed(fewer, n)
      ensures offsets'[n] == 0
    {
      ListedRemoved(entries, p, n);
    }
  }

  lemma RemovedStart(entries: seq<Entry>, p: nat, j: nat)
    requires p < |entries| && j < |entries| - 1
    ensures var fewer, target := entries[..p] + entries[p + 1..], Start(entries, p) + |entries[p].s| + 1;
            if j < p then fewer[j] == entries[j] && Start(fewer, j) == Start(entries, j) < target
            else fewer[j] == entries[j + 1] && Start(fewer, j) == Start(entries, j + 1) - |entries[p].s| - 1
                 && Start(entries, j + 1) >= target
  {
    var fewer := entries[..p] + entries[p + 1..];
    if j < p {
      assert fewer[..j] == entries[..j];
      StartsApart(entries, j, p);
    } else {
      StartsApart(entries, p, j + 1);
      assert fewer[..j] == entries[..p] + entries[p + 1..j + 1];
      PackSplit(entries[..p], entries[p + 1..j + 1]);
    }
  }

  /** With its offset cleared, a number has a string exactly when its offset is not 0. */
  ghost predicate Tell(offsets: seq<int>, entries: seq<Entry>) {
    forall n: nat :: n < |offsets| ==> (offsets[n] != 0 <==> Listed(entries, n))
  }

  lemma OffsetsTell(offsets: seq<int>, entries: seq<Entry>, p: nat, cleared: seq<int>)
    requires Offsets(offsets, entries) && AreEntries(entries) && p < |entries|
    requires cleared == offsets[entries[p].num := 0]
    ensures Tell(cleared, entries[..p] + entries[p + 1..])
  {
    forall n: nat | n < |cleared|
      ensures cleared[n] != 0 <==> Listed(entries[..p] + entries[p + 1..], n)
    {
      ListedRemoved(entries, p, n);
    }
  }

  /** A string appended for a number that had none. */
  lemma Appended(offsets: seq<int>, entries: seq<Entry>, num: nat, s: string)
    requires Offsets(offsets, entries) && AreEntries(entries)
    requires num < |offsets| && !Listed(entries, num)
    requires IsText(s) && s != ""
    ensures var more := entries + [Entry(num, s)];
            AreEntries(more) && Offsets(offsets[num := 1 + |Pack(entries)|], more)
  {
    var more := entries + [Entry(num, s)];
    forall j | 0 <= j < |more|
      ensures more[j].num < |offsets| && offsets[num := 1 + |Pack(entries)|][more[j].num] == Start(more, j)
    {
      assert more[..j] == entries[..j];
      if j == |entries| {
        assert entries[..j] == entries;
      } else {
        assert more[j] == entries[j] && entries[j].num != num;
      }
    }
    forall n | 0 <= n < |offsets| && !Listed(more, n)
      ensures n != num && offsets[n] == 0
    {
      ListedAppended(entries, Entry(num, s), n);
    }
  }

  // The strings by number, after each of the three.

  lemma TextsReplaced(text: seq<string>, entries: seq<Entry>, p: nat, s: string)
    requires Texts(text, entries) && AreEntries(entries) && p < |entries|
    ensures Texts(text[entries[p].num := s], entries[p := Entry(entries[p].num, s)])
  {
    var more := entries[p := Entry(entries[p].num, s)];
    forall n | 0 <= n < |text| && !Listed(more, n)
      ensures text[entries[p].num := s][n] == ""
    {
      ListedReplaced(entries, p, s, n);
    }
  }

  lemma TextsRemoved(text: seq<string>, entries: seq<Entry>, p: nat)
    requires Texts(text, entries) && AreEntries(entries) && p < |entries|
    ensures Texts(text[entries[p].num := ""], entries[..p] + entries[p + 1..])
  {
    var fewer := entries[..p] + entries[p + 1..];
    forall n | 0 <= n < |text| && !Listed(fewer, n)
      ensures text[entries[p].num := ""][n] == ""
    {
      ListedRemoved(entries, p, n);
    }
  }

  lemma TextsAppended(text: seq<string>, entries: seq<Entry>, num: nat, s: string)
    requires Texts(text, entries) && AreEntries(entries)
    requires num < |text| && !Listed(entries, num)
    ensures Texts(text[num := s], entries + [Entry(num, s)])
  {
    var more := entries + [Entry(num, s)];
    assert forall i :: 0 <= i < |entries| ==> more[i] == entries[i] && entries[i].num != num;
    forall n | 0 <= n < |text| && !Listed(more, n)
      ensures text[num := s][n] == ""
    {
      ListedAppended(entries, Entry(num, s), n);
    }
  }

  // The pool itself, after each of the three.

  lemma PoolAround(pool: string, entries: seq<Entry>, p: nat)
    requires pool == [NUL] + Pack(entries) && p < |entries|
    ensures var o, s := Start(entries, p), entries[p].s;
            && o + |s| < |pool|
            && pool[..o] == [NUL] + Pack(entries[..p])
            && pool[o..o + |s|] == s && pool[o + |s|] == NUL
            && pool[o + |s| + 1..] == Pack(entries[p + 1..])
  {
    PackAround(entries, p);
    assert pool == [NUL] + Pack(entries[..p]) + (entries[p].s + [NUL] + Pack(entries[p + 1..]));
  }

  lemma PutBetween(pool: string, front: string, was: string, rest: string, s: string)
    requires pool == front + (was + [NUL] + rest)
    ensures pool[..|front|] + s + [NUL] + pool[|front| + |was| + 1..] == front + (s + [NUL] + rest)
  {
    assert pool[..|front|] == front;
    assert pool[|front| + |was| + 1..] == rest;
  }

  lemma PoolReplaced(pool: string, entries: seq<Entry>, p: nat, s: string)
    requires pool == [NUL] + Pack(entries) && p < |entries|
    ensures var o, e := Start(entries, p), entries[p];
            && o + |e.s| < |pool|
            && pool[..o] + s + [NUL] + pool[o + |e.s| + 1..] == [NUL] + Pack(entries[p := Entry(e.num, s)])
  {
    var front, rest := [NUL] + Pack(entries[..p]), Pack(entries[p + 1..]);
    assert Start(entries, p) == |front|;
    assert entries[p := entries[p]] == entries;
    PackedAround(entries, p, entries[p]);
    PackedAround(entries, p, Entry(entries[p].num, s));
    PutBetween(pool, front, entries[p].s, rest, s);
  }

  lemma PackedAround(entries: seq<Entry>, p: nat, e: Entry)
    requires p < |entries|
    ensures [NUL] + Pack(entries[p := e]) == [NUL] + Pack(entries[..p]) + (e.s + [NUL] + Pack(entries[p + 1..]))
  {
    var more := entries[p := e];
    assert more[..p] == entries[..p] && more[p + 1..] == entries[p + 1..];
    PackAround(more, p);
  }

  lemma PoolRemoved(pool: string, entries: seq<Entry>, p: nat)
    requires pool == [NUL] + Pack(entries) && p < |entries|
    ensures var o, e := Start(entries, p), entries[p];
            && o + |e.s| < |pool|
            && pool[..o] + pool[o + |e.s| + 1..] == [NUL] + Pack(entries[..p] + entries[p + 1..])
  {
    PoolAround(pool, entries, p);
    PackSplit(entries[..p], entries[p + 1..]);
  }

  lemma PoolAppended(pool: string, entries: seq<Entry>, e: Entry)
    requires pool == [NUL] + Pack(entries)
    ensures pool + e.s + [NUL] == [NUL] + Pack(entries + [e])
  {
    PackSplit(entries, [e]);
  }

  /** The characters that the strings take, each with its terminator; a number without a string takes none. */
  function Room(text: seq<string>): nat {
    if text == [] then 0
    else Room(text[..|text| - 1]) + if text[|text| - 1] == "" then 0 else |text[|text| - 1]| + 1
  }

  lemma {:induction false} RoomOf(text: seq<string>, n: nat)
    requires n < |text|
    ensures Room(text) == Room(text[n := ""]) + if text[n] == "" then 0 else |text[n]| + 1
  {
    var less := text[n := ""];
    if n < |text| - 1 {
      RoomOf(text[..|text| - 1], n);
      assert less[..|text| - 1] == text[..|text| - 1][n := ""];
    } else {
      assert less[..n] == text[..n];
    }
  }

  lemma {:induction false} NoRoomTaken(text: seq<string>)
    requires forall n :: 0 <= n < |text| ==> text[n] == ""
    ensures Room(text) == 0
  {
    if text != [] {
      NoRoomTaken(text[..|text| - 1]);
    }
  }

  /** The pool is as long as the strings by number need, with one terminator each and one in front. */
  lemma {:induction false} PackFits(entries: seq<Entry>, text: seq<string>)
    requires AreEntries(entries) && Texts(text, entries)
    ensures |Pack(entries)| == Room(text)
  {
    if entries == [] {
      NoRoomTaken(text);
    } else {
      var p := |entries| - 1;
      var front, e := entries[..p], entries[p];
      TextsRemoved(text, entries, p);
      assert front == entries[..p] + entries[p + 1..];
      PackFits(front, text[e.num := ""]);
      RoomOf(text, e.num);
      assert entries == front + [e];
      PackSplit(front, [e]);
    }
  }

  // All of it together

  /** Pool, offsets and the largest number, for the strings in pool order and by number. */
  ghost predicate Consistent(pool: string, offsets: seq<int>, highest: nat, entries: seq<Entry>, text: seq<string>) {
    && AreEntries(entries)
    && pool == [NUL] + Pack(entries)
    && |offsets| == |text| && highest < |text|
    && Offsets(offsets, entries)
    && Texts(text, entries)
    && IsHighest(highest, entries)
  }

  lemma ConsistentReplaced(pool: string, offsets: seq<int>, highest: nat, entries: seq<Entry>, text: seq<string>,
                           p: nat, s: string, pool': string, offsets': seq<int>)
    requires Consistent(pool, offsets, highest, entries, text)
    requires p < |entries| && IsText(s) && s != ""
    requires Start(entries, p) + |entries[p].s| < |pool|
    requires pool' == pool[..Start(entries, p)] + s + [NUL] + pool[Start(entries, p) + |entries[p].s| + 1..]
    requires offsets' == Shifted(offsets, Start(entries, p) + |entries[p].s| + 1, |s| - |entries[p].s|)
    ensures Consistent(pool', offsets', highest, entries[p := Entry(entries[p].num, s)], text[entries[p].num := s])
  {
    PoolReplaced(pool, entries, p, s);
    Replaced(offsets, entries, p, s);
    TextsReplaced(text, entries, p, s);
    ListedReplaced(entries, p, s, highest);
  }

  lemma ConsistentRemoved(pool: string, offsets: seq<int>, highest: nat, entries: seq<Entry>, text: seq<string>,
                          p: nat, highest': nat, pool': string, offsets': seq<int>)
    requires Consistent(pool, offsets, highest, entries, text)
    requires p < |entries|
    requires highest' <= highest && IsHighest(highest', entries[..p] + entries[p + 1..])
    requires Start(entries, p) + |entries[p].s| < |pool|
    requires pool' == pool[..Start(entries, p)] + pool[Start(entries, p) + |entries[p].s| + 1..]
    requires offsets'
          == Shifted(offsets[entries[p].num := 0], Start(entries, p) + |entries[p].s| + 1, -|entries[p].s| - 1)
    ensures Consistent(pool', offsets', highest', entries[..p] + entries[p + 1..], text[entries[p].num := ""])
  {
    PoolRemoved(pool, entries, p);
    Removed(offsets, entries, p);
    TextsRemoved(text, entries, p);
  }

  lemma HighestAppended(highest: nat, entries: seq<Entry>, e: Entry)
    requires IsHighest(highest, entries)
    ensures IsHighest(if e.num >= highest then e.num else highest, entries + [e])
  {
    ListedAppended(entries, e, if e.num >= highest then e.num else highest);
  }

  lemma ConsistentAppended(pool: string, offsets: seq<int>, highest: nat, entries: seq<Entry>, text: seq<string>,
                           num: nat, s: string, highest': nat, pool': string, offsets': seq<int>)
    requires Consistent(pool, offsets, highest, entries, text)
    requires num < |text| && !Listed(entries, num) && IsText(s) && s != ""
    requires highest' == if num >= highest then num else highest
    requires pool' == pool + s + [NUL]
    requires offsets' == offsets[num := |pool|]
    ensures Consistent(pool', offsets', highest', entries + [Entry(num, s)], text[num := s])
  {
    var e := Entry(num, s);
    PoolAppended(pool, entries, e);
    Appended(offsets, entries, num, s);
    TextsAppended(text, entries, num, s);
    HighestAppended(highest, entries, e);
  }

  lemma ListedBelow(entries: seq<Entry>, p: nat, highest: nat)
    requires p < |entries| && IsHighest(highest, entries)
    ensures var fewer := entries[..p] + entries[p + 1..];
            forall i :: 0 <= i < |fewer| ==> fewer[i].num <= highest
  {
  }

  /** A number's offset leads to its string. */
  lemma TextAt(pool: string, offsets: seq<int>, highest: nat, entries: seq<Entry>, text: seq<string>, num: nat)
    requires Consistent(pool, offsets, highest, entries, text) && num < |text|
    ensures IsText(text[num])
    ensures 0 <= offsets[num] && offsets[num] + |text[num]| < |pool|
    ensures pool[offsets[num]..offsets[num] + |text[num]|] == text[num]
    ensures pool[offsets[num] + |text[num]|] == NUL
  {
    if Listed(entries, num) {
      var p :| 0 <= p < |entries| && entries[p].num == num;
      PoolAround(pool, entries, p);
      assert offsets[num] == Start(entries, p) && text[num] == entries[p].s;
    }
  }

  /** What a caller of the three operations needs to know of a consistent pool. */
  lemma ConsistentTells(pool: string, offsets: seq<int>, highest: nat, entries: seq<Entry>, text: seq<string>, num: nat)
    requires Consistent(pool, offsets, highest, entries, text) && num < |text|
    ensures forall n :: highest < n < |offsets| ==> offsets[n] == 0
    ensures offsets[num] != 0 ==> num <= highest
    ensures offsets[num] != 0 <==> Listed(entries, num)
    ensures offsets[num] != 0 <==> text[num] != ""
  {
    forall n | highest < n < |offsets|
      ensures offsets[n] == 0
    {
      assert !Listed(entries, n);
    }
  }

  // ---------------------------------------------------------------------------------------------
  // The manager

  /**
   * How a call ends. BadNumber and NoRoom are the exceptions of the source; Overrun stands for a call that
   * would read or write outside the buffers and is not carried out here.
   */
  datatype Outcome = Done | BadNumber | NoRoom | Overrun

  /** n characters moved inside a buffer, as memmove does. */
  method MemMove(data: array<char>, dst: nat, src: nat, n: nat)
    requires dst + n <= data.Length && src + n <= data.Length
    modifies data
    ensures data[..] == old(data[..])[..dst] + old(data[..])[src..src + n] + old(data[..])[dst + n..]
  {
    var moved := data[src..src + n];
    forall i | 0 <= i < n {
      data[dst + i] := moved[i];
    }
  }

  method CopyIn(data: array<char>, at: nat, s: string)
    requires at + |s| < data.Length
    modifies data
    ensures data[..] == old(data[..])[..at] + s + [NUL] + old(data[..])[at + |s| + 1..]
  {
    forall i | 0 <= i < |s| {
      data[at + i] := s[i];
    }
    data[at + |s|] := NUL;
  }

  /** The move of the tail and the copy of the new string, on the pool's first count characters. */
  lemma Edited(data: string, moved: string, edited: string, count: nat, at: nat, currentLen: nat, s: string,
               dst: nat, src: nat, n: nat)
    requires at + currentLen < count
    requires count + |s| + 1 <= |data| && count + currentLen + 1 <= |data|
    requires dst == at + |s| + 1 && src == at + currentLen + 1 && n == count - at
    requires moved == data[..dst] + data[src..src + n] + data[dst + n..]
    requires edited == moved[..at] + s + [NUL] + moved[dst..]
    ensures |edited| == |data|
    ensures edited[..count + |s| - currentLen] == data[..at] + s + [NUL] + data[at + currentLen + 1..count]
  {
    assert moved[..at] == data[..at];
    var tail := moved[dst..];
    assert tail == data[src..src + n] + data[dst + n..];
    assert tail[..count - at - currentLen - 1] == data[at + currentLen + 1..count];
    var front := data[..at] + s + [NUL];
    assert edited == front + tail;
    assert (front + tail)[..|front| + (count - at - currentLen - 1)] == front + tail[..count - at - currentLen - 1];
  }

  method EditPool(data: array<char>, count: nat, at: nat, currentLen: nat, s: string)
    requires at + currentLen < count
    requires count + |s| + 1 <= data.Length && count + currentLen + 1 <= data.Length
    modifies data
    ensures data[..][..count + |s| - currentLen]
         == old(data[..])[..at] + s + [NUL] + old(data[..])[at + currentLen + 1..count]
  {
    ghost var before := data[..];
    var dst, src, n := at + |s| + 1, at + currentLen + 1, count - at;
    MemMove(data, dst, src, n);
    ghost var moved := data[..];
    CopyIn(data, at, s);
    Edited(before, moved, data[..], count, at, currentLen, s, dst, src, n);
  }

  lemma Closed(data: string, moved: string, count: nat, at: nat, currentLen: nat, src: nat, n: nat)
    requires at + currentLen < count && count + currentLen + 1 <= |data|
    requires src == at + currentLen + 1 && n == count - at
    requires moved == data[..at] + data[src..src + n] + data[at + n..]
    ensures |moved| == |data|
    ensures moved[..count - currentLen - 1] == data[..at] + data[at + currentLen + 1..count]
  {
    var tail := data[src..src + n] + data[at + n..];
    assert tail[..count - at - currentLen - 1] == data[at + currentLen + 1..count];
    assert moved == data[..at] + tail;
    assert (data[..at] + tail)[..at + (count - at - currentLen - 1)]
        == data[..at] + tail[..count - at - currentLen - 1];
  }

  method ClosePool(data: array<char>, count: nat, at: nat, currentLen: nat)
    requires at + currentLen < count
    requires count + currentLen + 1 <= data.Length
    modifies data
    ensures data[..][..count - currentLen - 1] == old(data[..])[..at] + old(data[..])[at + currentLen + 1..count]
  {
    ghost var before := data[..];
    var src, n := at + currentLen + 1, count - at;
    MemMove(data, at, src, n);
    Closed(before, data[..], count, at, currentLen, src, n);
  }

  class ConfigStringManager {
    var stringOffsets: array<int>
    var stringData: array<char>
    var highestConfigstring: nat
    var dataCount: nat

    /** The strings in pool order, and the string of every number. */
    ghost var entries: seq<Entry>
    ghost var text: seq<string>

    ghost predicate Valid()
      reads this, stringOffsets, stringData
    {
      && stringOffsets.Length == |text| > 0
      && 1 <= dataCount <= stringData.Length
      && Consistent(stringData[..dataCount], stringOffsets[..], highestConfigstring, entries, text)
    }

    constructor (maxConfigStrings: nat, maxChars: nat)
      requires maxConfigStrings > 0 && maxChars > 0
      ensures Valid() && text == seq(maxConfigStrings, _ => "")
      ensures stringData.Length == maxChars && fresh(stringData) && fresh(stringOffsets)
    {
      stringOffsets := new int[maxConfigStrings](_ => 0);
      stringData := new char[maxChars](_ => NUL);
      highestConfigstring, dataCount := 0, 1;
      entries, text := [], seq(maxConfigStrings, _ => "");
    }

    /** The length of the C string at an offset. */
    method StrLen(at: nat, ghost s: string) returns (len: nat)
      requires at + |s| < stringData.Length
      requires stringData[at..at + |s|] == s && IsText(s) && stringData[at + |s|] == NUL
      ensures len == |s|
    {
      assert forall i :: 0 <= i < |s| ==> s[i] == stringData[at + i];
      len := 0;
      while stringData[at + len] != NUL
        invariant len <= |s|
        invariant len < |s| ==> stringData[at + len] == s[len]
        decreases |s| - len
      {
        len := len + 1;
      }
    }

    /** getConfigString: the string of a number. */
    method Get(num: nat) returns (r: Outcome, s: string)
      requires Valid()
      ensures r == if num > |text| then BadNumber else if num == |text| then Overrun else Done
      ensures r == Done ==> s == text[num]
    {
      s := "";
      if num > stringOffsets.Length {
        return BadNumber, s;
      }
      if num == stringOffsets.Length {
        return Overrun, s;
      }
      ghost var wanted := LocateText(num);
      var len := StrLen(stringOffsets[num], wanted);
      return Done, stringData[stringOffsets[num]..stringOffsets[num] + len];
    }

    lemma LocateText(num: nat) returns (s: string)
      requires Valid() && num < |text|
      ensures s == text[num] && IsText(s)
      ensures 0 <= stringOffsets[num] && stringOffsets[num] + |s| < dataCount
      ensures stringData[stringOffsets[num]..stringOffsets[num] + |s|] == s
      ensures stringData[stringOffsets[num] + |s|] == NUL
    {
      s := text[num];
      TextAt(stringData[..dataCount], stringOffsets[..], highestConfigstring, entries, text, num);
    }

    /** The loop that moves the offsets from a target on. */
    method MoveOffsets(target: int, diff: int)
      requires highestConfigstring < stringOffsets.Length
      requires forall n :: highestConfigstring < n < stringOffsets.Length ==> stringOffsets[n] < target
      modifies stringOffsets
      ensures stringOffsets[..] == Shifted(old(stringOffsets[..]), target, diff)
    {
      var i := 0;
      while i <= highestConfigstring
        invariant i <= highestConfigstring + 1
        invariant forall n :: 0 <= n < i ==> stringOffsets[n] == Shifted(old(stringOffsets[..]), target, diff)[n]
        invariant forall n :: i <= n < stringOffsets.Length ==> stringOffsets[n] == old(stringOffsets[n])
      {
        if stringOffsets[i] >= target {
          stringOffsets[i] := stringOffsets[i] + diff;
        }
        i := i + 1;
      }
    }

    /** The loop that looks for the largest number that still has a string. */
    method LowerHighest(ghost fewer: seq<Entry>)
      requires highestConfigstring < stringOffsets.Length
      requires forall i :: 0 <= i < |fewer| ==> fewer[i].num <= highestConfigstring
      requires Tell(stringOffsets[..], fewer)
      modifies this`highestConfigstring
      ensures highestConfigstring <= old(highestConfigstring) && IsHighest(highestConfigstring, fewer)
    {
      while highestConfigstring > 0
        invariant highestConfigstring <= old(highestConfigstring)
        invariant forall i :: 0 <= i < |fewer| ==> fewer[i].num <= highestConfigstring
      {
        if stringOffsets[highestConfigstring] != 0 {
          break;
        }
        assert forall i :: 0 <= i < |fewer| ==> Listed(fewer, fewer[i].num);
        highestConfigstring := highestConfigstring - 1;
      }
    }

    /** Where a number's string is in the pool, and how long it is. */
    method Locate(num: nat) returns (ghost p: nat, offset: nat, len: nat)
      requires Valid() && num < |text| && stringOffsets[num] != 0
      ensures p < |entries| && entries[p].num == num && text[num] == entries[p].s
      ensures offset == stringOffsets[num] == Start(entries, p)
      ensures len == |entries[p].s| && offset + len < dataCount
    {
      offset := stringOffsets[num];
      ghost var s := LocateText(num);
      assert Listed(entries, num);
      p :| 0 <= p < |entries| && entries[p].num == num;
      len := StrLen(offset, s);
    }

    /** The new string put where the old one was: characters, offsets and counts. */
    method PutInPlace(num: nat, s: string, offset: nat, currentLen: nat)
      requires offset + currentLen < dataCount <= stringData.Length
      requires dataCount + |s| + 1 <= stringData.Length && dataCount + currentLen + 1 <= stringData.Length
      requires num <= highestConfigstring < stringOffsets.Length
      requires forall n :: highestConfigstring < n < stringOffsets.Length ==> stringOffsets[n] == 0
      modifies this`highestConfigstring, this`dataCount, stringOffsets, stringData
      ensures dataCount == old(dataCount) + |s| - currentLen <= stringData.Length
      ensures highestConfigstring == old(highestConfigstring)
      ensures stringData[..dataCount]
           == old(stringData[..dataCount])[..offset] + s + [NUL]
              + old(stringData[..dataCount])[offset + currentLen + 1..]
      ensures stringOffsets[..] == Shifted(old(stringOffsets[..]), offset + currentLen + 1, |s| - currentLen)
    {
      ghost var data := stringData[..];
      assert stringData[..dataCount] == data[..dataCount];
      EditPool(stringData, dataCount, offset, currentLen, s);
      if num >= highestConfigstring {
        highestConfigstring := num;
      }
      MoveOffsets(offset + currentLen + 1, |s| - currentLen);
      dataCount := dataCount + |s| - currentLen;
    }

    /** The gap of a removed string closed, its offset cleared, and the largest number lowered. */
    method TakeOut(num: nat, offset: nat, currentLen: nat, ghost fewer: seq<Entry>)
      requires offset + currentLen < dataCount <= stringData.Length && dataCount + currentLen + 1 <= stringData.Length
      requires num <= highestConfigstring < stringOffsets.Length
      requires forall i :: 0 <= i < |fewer| ==> fewer[i].num <= highestConfigstring
      requires Tell(stringOffsets[..][num := 0], fewer)
      modifies this`highestConfigstring, this`dataCount, stringOffsets, stringData
      ensures dataCount == old(dataCount) - currentLen - 1
      ensures highestConfigstring <= old(highestConfigstring) && IsHighest(highestConfigstring, fewer)
      ensures stringData[..dataCount]
           == old(stringData[..dataCount])[..offset] + old(stringData[..dataCount])[offset + currentLen + 1..]
      ensures stringOffsets[..]
           == Shifted(old(stringOffsets[..])[num := 0], offset + currentLen + 1, -1 - (currentLen as int))
    {
      ghost var data := stringData[..];
      assert stringData[..dataCount] == data[..dataCount];
      ClosePool(stringData, dataCount, offset, currentLen);
      stringOffsets[num] := 0;
      LowerHighest(fewer);
      assert forall n: nat :: n < stringOffsets.Length && n > highestConfigstring ==> !Listed(fewer, n);
      MoveOffsets(offset + currentLen + 1, -1 - (currentLen as int));
      dataCount := dataCount - (currentLen + 1);
    }

    /** The string at a place of the pool replaced by another. */
    method ReplaceAt(num: nat, s: string, ghost p: nat, offset: nat, currentLen: nat)
      requires Valid() && num < |text| && stringOffsets[num] != 0 && IsText(s) && s != ""
      requires p < |entries| && entries[p].num == num
      requires offset == Start(entries, p) && currentLen == |entries[p].s| && offset + currentLen < dataCount
      requires dataCount + |s| + 1 <= stringData.Length && dataCount + currentLen + 1 <= stringData.Length
      modifies this`highestConfigstring, this`dataCount, stringOffsets, stringData
      ensures 1 <= dataCount <= stringData.Length
      ensures Consistent(stringData[..dataCount], stringOffsets[..], highestConfigstring,
                         entries[p := Entry(num, s)], text[num := s])
    {
      ghost var pool, offsets := stringData[..dataCount], stringOffsets[..];
      ConsistentTells(pool, offsets, highestConfigstring, entries, text, num);
      PutInPlace(num, s, offset, currentLen);
      ghost var pool', offsets' := stringData[..dataCount], stringOffsets[..];
      ConsistentReplaced(pool, offsets, highestConfigstring, entries, text, p, s, pool', offsets');
    }

    /** A number's string replaced by another. */
    method Replace(num: nat, s: string) returns (r: Outcome)
      requires Valid() && num < |text| && stringOffsets[num] != 0
      requires IsText(s) && s != ""
      modifies this`highestConfigstring, this`dataCount, this`entries, this`text, stringOffsets, stringData
      ensures Valid()
      ensures old(text[num]) != ""
      ensures var count, longest := old(dataCount), if |s| > |old(text[num])| then |s| else |old(text[num])|;
              r == if count + |s| - |old(text[num])| > stringData.Length then NoRoom
                   else if count + longest + 1 > stringData.Length then Overrun
                   else Done
      ensures text == if r == Done then old(text)[num := s] else old(text)
      ensures r != Done ==> dataCount == old(dataCount)
    {
      ghost var p;
      var offset, currentLen;
      p, offset, currentLen := Locate(num);
      var len := |s|;
      var remainingLen := dataCount - offset;
      var newCount := dataCount + len - currentLen;
      if newCount > stringData.Length {
        return NoRoom;
      }
      if offset + len + 1 + remainingLen > stringData.Length
        || offset + currentLen + 1 + remainingLen > stringData.Length {
        return Overrun;
      }
      ReplaceAt(num, s, p, offset, currentLen);
      entries, text := entries[p := Entry(num, s)], text[num := s];
      r := Done;
    }

    /** The string at a place of the pool removed. */
    method RemoveAt(num: nat, ghost p: nat, offset: nat, currentLen: nat)
      requires Valid() && num < |text| && stringOffsets[num] != 0
      requires p < |entries| && entries[p].num == num
      requires offset == Start(entries, p) && currentLen == |entries[p].s| && offset + currentLen < dataCount
      requires dataCount + currentLen + 1 <= stringData.Length
      modifies this`highestConfigstring, this`dataCount, stringOffsets, stringData
      ensures 1 <= dataCount <= stringData.Length
      ensures Consistent(stringData[..dataCount], stringOffsets[..], highestConfigstring,
                         entries[..p] + entries[p + 1..], text[num := ""])
    {
      ghost var pool, offsets, highest := stringData[..dataCount], stringOffsets[..], highestConfigstring;
      ConsistentTells(pool, offsets, highest, entries, text, num);
      OffsetsTell(offsets, entries, p, offsets[num := 0]);
      ListedBelow(entries, p, highest);
      TakeOut(num, offset, currentLen, entries[..p] + entries[p + 1..]);
      ConsistentRemoved(pool, offsets, highest, entries, text, p, highestConfigstring,
                        stringData[..dataCount], stringOffsets[..]);
    }

    /** A number's string removed. */
    method Remove(num: nat) returns (r: Outcome)
      requires Valid() && num < |text| && stringOffsets[num] != 0
      modifies this`highestConfigstring, this`dataCount, this`entries, this`text, stringOffsets, stringData
      ensures Valid()
      ensures r == if old(dataCount) + |old(text[num])| + 1 > stringData.Length then Overrun else Done
      ensures text == if r == Done then old(text)[num := ""] else old(text)
      ensures r != Done ==> dataCount == old(dataCount)
    {
      ghost var p;
      var offset, currentLen;
      p, offset, currentLen := Locate(num);
      var remainingLen := dataCount - offset;
      if offset + currentLen + 1 + remainingLen > stringData.Length {
        return Overrun;
      }
      RemoveAt(num, p, offset, currentLen);
      entries, text := entries[..p] + entries[p + 1..], text[num := ""];
      r := Done;
    }

    /** A string put behind the last one. */
    method AppendAt(num: nat, s: string)
      requires Valid() && num < |text| && stringOffsets[num] == 0 && IsText(s) && s != ""
      requires dataCount + |s| + 1 <= stringData.Length
      modifies this`highestConfigstring, this`dataCount, stringOffsets, stringData
      ensures 1 <= dataCount <= stringData.Length
      ensures Consistent(stringData[..dataCount], stringOffsets[..], highestConfigstring,
                         entries + [Entry(num, s)], text[num := s])
    {
      ghost var pool, offsets, highest := stringData[..dataCount], stringOffsets[..], highestConfigstring;
      ConsistentTells(pool, offsets, highest, entries, text, num);
      stringOffsets[num] := dataCount;
      CopyIn(stringData, dataCount, s);
      dataCount := dataCount + |s| + 1;
      if num >= highestConfigstring {
        highestConfigstring := num;
      }
      ghost var pool', offsets' := stringData[..dataCount], stringOffsets[..];
      assert pool' == pool + s + [NUL];
      ConsistentAppended(pool, offsets, highest, entries, text, num, s, highestConfigstring, pool', offsets');
    }

    /** The string of a number that had none, behind the last string. */
    method Append(num: nat, s: string) returns (r: Outcome)
      requires Valid() && num < |text| && stringOffsets[num] == 0
      requires IsText(s) && s != ""
      modifies this`highestConfigstring, this`dataCount, this`entries, this`text, stringOffsets, stringData
      ensures Valid()
      ensures old(text[num]) == ""
      ensures r == if old(dataCount) + |s| > stringData.Length then NoRoom
                   else if old(dataCount) + |s| + 1 > stringData.Length then Overrun
                   else Done
      ensures text == if r == Done then old(text)[num := s] else old(text)
      ensures r != Done ==> dataCount == old(dataCount)
    {
      ConsistentTells(stringData[..dataCount], stringOffsets[..], highestConfigstring, entries, text, num);
      var newSz := dataCount + |s|;
      if newSz > stringData.Length {
        return NoRoom;
      }
      if dataCount + |s| + 1 > stringData.Length {
        return Overrun;
      }
      AppendAt(num, s);
      entries, text := entries + [Entry(num, s)], text[num := s];
      r := Done;
    }

    /** dataCount, and what is left over: nothing but one terminator and the strings with theirs. */
    lemma Conserved()
      requires Valid()
      ensures dataCount == 1 + Room(text)
      ensures forall n :: 0 <= n < |text| ==> (text[n] != "" ==> n <= highestConfigstring)
      ensures highestConfigstring == 0 || text[highestConfigstring] != ""
    {
      PackFits(entries, text);
      forall n | 0 <= n < |text|
        ensures text[n] != "" ==> n <= highestConfigstring
      {
        ConsistentTells(stringData[..dataCount], stringOffsets[..], highestConfigstring, entries, text, n);
      }
      ConsistentTells(stringData[..dataCount], stringOffsets[..], highestConfigstring, entries, text,
                      highestConfigstring);
    }

    /** setConfigString: a call that succeeds sets the string of its number and leaves all others as they were. */
    method Set(num: nat, s: string) returns (r: Outcome)
      requires Valid() && IsText(s)
      modifies this`highestConfigstring, this`dataCount, this`entries, this`text, stringOffsets, stringData
      ensures Valid()
      ensures r == SetOutcome(old(text), old(dataCount), stringData.Length, num, s)
      ensures r == Done ==> text == old(text)[num := s]
      ensures r != Done ==> text == old(text) && dataCount == old(dataCount)
    {
      if num > stringOffsets.Length {
        return BadNumber;
      }
      if num == stringOffsets.Length {
        return Overrun;
      }
      if stringOffsets[num] != 0 {
        if |s| > 0 {
          r := Replace(num, s);
        } else {
          r := Remove(num);
        }
      } else if |s| > 0 {
        r := Append(num, s);
      } else {
        assert !Listed(entries, num);
        r := Done;
      }
    }
  }

  /** The last string set for a number in a run of calls, or the one it had before. */
  function LastSet(calls: seq<(nat, string)>, n: nat, before: string): string {
    if calls == [] then before
    else if calls[|calls| - 1].0 == n then calls[|calls| - 1].1
    else LastSet(calls[..|calls| - 1], n, before)
  }

  ghost predicate AllLast(text: seq<string>, calls: seq<(nat, string)>, before: seq<string>) {
    |text| == |before| && forall n :: 0 <= n < |text| ==> text[n] == LastSet(calls, n, before[n])
  }

  lemma OneMoreCall(text: seq<string>, calls: seq<(nat, string)>, i: nat, before: seq<string>)
    requires i < |calls| && calls[i].0 < |text| && AllLast(text, calls[..i], before)
    ensures AllLast(text[calls[i].0 := calls[i].1], calls[..i + 1], before)
  {
    assert calls[..i + 1][..i] == calls[..i];
  }

  /** A run of calls on one manager, up to the first that fails. */
  method SetAll(manager: ConfigStringManager, calls: seq<(nat, string)>) returns (done: nat)
    requires manager.Valid()
    requires forall i :: 0 <= i < |calls| ==> IsText(calls[i].1)
    modifies manager, manager.stringOffsets, manager.stringData
    ensures manager.Valid() && |manager.text| == old(|manager.text|) && done <= |calls|
    ensures forall n :: 0 <= n < |manager.text| ==>
              manager.text[n] == LastSet(calls[..done], n, old(manager.text[n]))
    ensures done < |calls| ==>
              SetOutcome(manager.text, manager.dataCount, manager.stringData.Length, calls[done].0, calls[done].1)
              != Done
  {
    ghost var before := manager.text;
    done := 0;
    while done < |calls|
      invariant done <= |calls| && manager.Valid()
      invariant unchanged(manager`stringOffsets) && unchanged(manager`stringData)
      invariant AllLast(manager.text, calls[..done], before)
    {
      ghost var texts := manager.text;
      var r := manager.Set(calls[done].0, calls[done].1);
      if r != Done {
        return;
      }
      OneMoreCall(texts, calls, done, before);
      done := done + 1;
    }
  }

  /**
   * How setting a string ends, by what a caller can see before: an exception, a call that would leave the
   * buffers, or success. The move of the tail touches as many characters as lie from the old string on, so
   * it needs room for the longer of the two strings behind the pool's end.
   */
  function SetOutcome(text: seq<string>, dataCount: nat, maxChars: nat, num: nat, s: string): Outcome {
    if num > |text| then BadNumber
    else if num == |text| then Overrun
    else
      var current := |text[num]|;
      var longest := if |s| > current then |s| else current;
      if |s| == 0 && current == 0 then Done
      else if |s| > 0 && dataCount + |s| - current > maxChars then NoRoom
      else if dataCount + longest + 1 > maxChars then Overrun
      else Done
  }

  lemma RoomOfFirst(s: string)
    requires s != ""
    ensures Room([s, ""]) == |s| + 1
  {
    assert [s][..0] == [];
    assert Room([s]) == |s| + 1;
    assert [s, ""][..1] == [s];
  }

  /**
   * A string replaced by one of the same length, which the pool has room for: the room check passes, but the
   * move of the tail would leave the buffer.
   */
  method SameLengthOverruns() returns (first: Outcome, second: Outcome)
    ensures first == Done && second == Overrun
    ensures 1 + Room(["cd", ""]) <= 5
  {
    var manager := new ConfigStringManager(2, 5);
    first := manager.Set(0, "ab");
    manager.Conserved();
    RoomOfFirst("ab");
    RoomOfFirst("cd");
    assert manager.text == ["ab", ""];
    second := manager.Set(0, "cd");
  }
}
