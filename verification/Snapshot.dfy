/** Delta reconstruction of a snapshot's entities in the circular entity buffer (Parsing/Snapshot.cpp). */
module Snapshot {
  import opened Division
  import opened Options

  const ENTITYNUM_NONE := 1023
  const NO_ENTITY := 99999

  type EntityNum = x: int | 0 <= x < 1024

  datatype Entity = Entity(number: EntityNum, fields: map<nat, int>)

  /** What the stream says of one entity: that it is gone, or the fields that changed. */
  datatype Delta = Removed | Changed(patch: map<nat, int>)

  datatype Update = Update(num: EntityNum, delta: Delta)

  /** An update stream up to its terminating entity number. */
  type Updates = s: seq<Update> | forall i :: 0 <= i < |s| ==> s[i].num < ENTITYNUM_NONE witness []

  type Baselines = EntityNum -> Entity

  function Apply(prev: Entity, u: Update): Entity {
    match u.delta
    case Removed => Entity(ENTITYNUM_NONE, map[])
    case Changed(patch) => Entity(u.num, prev.fields + patch)
  }

  // ---------------------------------------------------------------------------------------------
  // The computation on the ring, step by step

  /** The entity ring, of any size, and the running number of the next entity. */
  datatype Ring = Ring(slots: seq<Entity>, next: nat)

  ghost predicate IsRing(r: Ring) {
    |r.slots| > 0
  }

  /** parseDeltaEntity: the slot is written in any case, but a removed entity is not counted. */
  function Commit(r: Ring, e: Entity): (r': Ring)
    requires IsRing(r)
    ensures |r'.slots| == |r.slots|
  {
    Ring(r.slots[r.next % |r.slots| := e], if e.number == ENTITYNUM_NONE then r.next else r.next + 1)
  }

  /** An old frame: where its entities start in the running numbering, and how many they are. */
  datatype Frame = Frame(first: nat, count: nat)

  function OldEntity(r: Ring, prev: Frame, index: nat): Entity
    requires IsRing(r)
  {
    r.slots[(prev.first + index) % |r.slots|]
  }

  /** The number of the old entity at index, or the mark for the end of the old frame. */
  function OldNum(r: Ring, prev: Frame, index: nat): nat
    requires IsRing(r)
  {
    if index >= prev.count then NO_ENTITY else OldEntity(r, prev, index).number
  }

  function StepsLeft(prev: Frame, index: nat, oldNum: nat): nat {
    if oldNum == NO_ENTITY then 0 else if index < prev.count then prev.count - index + 1 else 1
  }

  /** parsePacketEntities from old entity index on, whose number was read as oldNum. */
  function Parse(r: Ring, prev: Frame, index: nat, oldNum: nat, ups: Updates, base: Baselines): (r': Ring)
    requires IsRing(r)
    ensures |r'.slots| == |r.slots|
    decreases |ups| + StepsLeft(prev, index, oldNum)
  {
    if ups == [] && oldNum == NO_ENTITY then r
    else if ups == [] || oldNum < ups[0].num then
      var r1 := Commit(r, OldEntity(r, prev, index));
      Parse(r1, prev, index + 1, OldNum(r1, prev, index + 1), ups, base)
    else if oldNum == ups[0].num then
      var r1 := Commit(r, Apply(OldEntity(r, prev, index), ups[0]));
      Parse(r1, prev, index + 1, OldNum(r1, prev, index + 1), ups[1..], base)
    else
      Parse(Commit(r, Apply(base(ups[0].num), ups[0])), prev, index, oldNum, ups[1..], base)
  }

  /** The whole of parsePacketEntities: the first old entity is read without asking whether there is one. */
  function ParsePacket(r: Ring, prev: Option<Frame>, ups: Updates, base: Baselines): (r': Ring)
    requires IsRing(r)
    ensures |r'.slots| == |r.slots|
  {
    match prev
    case None => Parse(r, Frame(0, 0), 0, NO_ENTITY, ups, base)
    case Some(f) => Parse(r, f, 0, OldEntity(r, f, 0).number, ups, base)
  }

  // ---------------------------------------------------------------------------------------------
  // What the ring stands for

  /** Every counted entity ever written, in order; the ring still holds the latest ones. */
  ghost predicate Remembers(r: Ring, hist: seq<Entity>) {
    && IsRing(r)
    && r.next == |hist|
    && (forall e :: 0 <= e < |hist| ==> hist[e].number < ENTITYNUM_NONE)
    && (forall e :: 0 <= e < |hist| && |hist| - |r.slots| < e ==>
          r.slots[e % |r.slots|] == hist[e])
  }

  function Kept(e: Entity): seq<Entity> {
    if e.number == ENTITYNUM_NONE then [] else [e]
  }

  lemma CommitRemembers(r: Ring, hist: seq<Entity>, e: Entity)
    requires Remembers(r, hist)
    ensures Remembers(Commit(r, e), hist + Kept(e))
  {
    forall n | 0 <= n < |hist| && |hist| - |r.slots| < n
      ensures n % |r.slots| != |hist| % |r.slots|
    {
      PlacesApart(n, |hist|, |r.slots|);
    }
  }

  /** Whatever is parsed, the history only grows. */
  lemma {:induction false} ParseRemembers(r: Ring, hist: seq<Entity>, prev: Frame, index: nat, oldNum: nat,
                                          ups: Updates, base: Baselines)
    returns (more: seq<Entity>)
    requires Remembers(r, hist)
    ensures Remembers(Parse(r, prev, index, oldNum, ups, base), hist + more)
    decreases |ups| + StepsLeft(prev, index, oldNum)
  {
    if ups == [] && oldNum == NO_ENTITY {
      more := [];
      assert hist + more == hist;
    } else {
      var e := if ups == [] || oldNum < ups[0].num then OldEntity(r, prev, index)
               else if oldNum == ups[0].num then Apply(OldEntity(r, prev, index), ups[0])
               else Apply(base(ups[0].num), ups[0]);
      var r1 := Commit(r, e);
      CommitRemembers(r, hist, e);
      var rest;
      if ups == [] || oldNum < ups[0].num {
        rest := ParseRemembers(r1, hist + Kept(e), prev, index + 1, OldNum(r1, prev, index + 1), ups, base);
      } else if oldNum == ups[0].num {
        rest := ParseRemembers(r1, hist + Kept(e), prev, index + 1, OldNum(r1, prev, index + 1), ups[1..], base);
      } else {
        rest := ParseRemembers(r1, hist + Kept(e), prev, index, oldNum, ups[1..], base);
      }
      more := Kept(e) + rest;
      assert hist + more == hist + Kept(e) + rest;
    }
  }

  // ---------------------------------------------------------------------------------------------
  // The merge of an old frame and an update stream

  function Merge(prev: seq<Entity>, ups: Updates, base: Baselines): seq<Entity> {
    if ups == [] then prev
    else if prev != [] && prev[0].number < ups[0].num then [prev[0]] + Merge(prev[1..], ups, base)
    else if prev != [] && prev[0].number == ups[0].num then
      Kept(Apply(prev[0], ups[0])) + Merge(prev[1..], ups[1..], base)
    else Kept(Apply(base(ups[0].num), ups[0])) + Merge(prev, ups[1..], base)
  }

  /** How many updates start from a baseline while there are old entities still to be read. */
  function Inserts(prev: seq<Entity>, ups: Updates): (n: nat)
    ensures n <= |ups|
  {
    if ups == [] || prev == [] then 0
    else if prev[0].number < ups[0].num then Inserts(prev[1..], ups)
    else if prev[0].number == ups[0].num then Inserts(prev[1..], ups[1..])
    else 1 + Inserts(prev, ups[1..])
  }

  /**
   * As long as the writes stay less than a ring ahead of the old entity to be read next, with room for
   * the baseline inserts to come, parsing leaves exactly the merge behind the history.
   */
  lemma {:induction false} ParseMerges(r: Ring, hist: seq<Entity>, prev: Frame, index: nat, ups: Updates,
                                       base: Baselines, olds: seq<Entity>)
    requires Remembers(r, hist)
    requires index <= prev.count && prev.first + prev.count <= |hist|
    requires olds == hist[prev.first + index..prev.first + prev.count]
    requires olds != [] ==> |hist| + Inserts(olds, ups) < prev.first + index + |r.slots|
    ensures Remembers(Parse(r, prev, index, OldNum(r, prev, index), ups, base), hist + Merge(olds, ups, base))
    decreases |ups| + |olds|
  {
    if ups == [] && olds == [] {
      assert hist + [] == hist;
    } else if olds != [] && (ups == [] || olds[0].number <= ups[0].num) {
      var (e, ups1) := TakeOld(olds[0], ups);
      CommitRemembers(r, hist, e);
      ParseMerges(Commit(r, e), hist + Kept(e), prev, index + 1, ups1, base, olds[1..]);
      OldTaken(r, hist, prev, index, ups, base, olds);
    } else {
      var e := Apply(base(ups[0].num), ups[0]);
      CommitRemembers(r, hist, e);
      SameOldNum(r, hist, e, prev, index, olds);
      ParseMerges(Commit(r, e), hist + Kept(e), prev, index, ups[1..], base, olds);
      Inserted(r, hist, prev, index, ups, base, olds);
    }
  }

  /** The first step of the parse and of the merge, when it takes an old entity. */
  lemma OldTaken(r: Ring, hist: seq<Entity>, prev: Frame, index: nat, ups: Updates, base: Baselines,
                 olds: seq<Entity>)
    requires Remembers(r, hist)
    requires index < prev.count && prev.first + index < |hist| < prev.first + index + |r.slots|
    requires olds != [] && olds[0] == hist[prev.first + index] && (ups == [] || olds[0].number <= ups[0].num)
    requires var (e, ups1) := TakeOld(olds[0], ups);
             var r1 := Commit(r, e);
             Remembers(Parse(r1, prev, index + 1, OldNum(r1, prev, index + 1), ups1, base),
                       hist + Kept(e) + Merge(olds[1..], ups1, base))
    ensures Remembers(Parse(r, prev, index, OldNum(r, prev, index), ups, base), hist + Merge(olds, ups, base))
  {
    ReadsHistory(r, hist, prev, index);
    ParseTakesOld(r, prev, index, ups, base);
    var (e, ups1) := TakeOld(olds[0], ups);
    assert Merge(olds, ups, base) == Kept(e) + Merge(olds[1..], ups1, base) by {
      MergeTakesOld(olds, ups, base);
    }
    MergeStep(hist, e, Merge(olds[1..], ups1, base), Merge(olds, ups, base));
  }

  lemma {:induction false} MergeTakesOld(olds: seq<Entity>, ups: Updates, base: Baselines)
    requires olds != [] && olds[0].number < ENTITYNUM_NONE && (ups == [] || olds[0].number <= ups[0].num)
    ensures var (e, ups1) := TakeOld(olds[0], ups);
            Merge(olds, ups, base) == Kept(e) + Merge(olds[1..], ups1, base)
  {
    if ups == [] {
      assert olds == [olds[0]] + olds[1..];
    }
  }

  /** The first step, when it inserts an entity. */
  lemma Inserted(r: Ring, hist: seq<Entity>, prev: Frame, index: nat, ups: Updates, base: Baselines,
                 olds: seq<Entity>)
    requires IsRing(r) && ups != []
    requires OldNum(r, prev, index) > ups[0].num && (olds != [] ==> olds[0].number > ups[0].num)
    requires var e := Apply(base(ups[0].num), ups[0]);
             && OldNum(Commit(r, e), prev, index) == OldNum(r, prev, index)
             && Remembers(Parse(Commit(r, e), prev, index, OldNum(Commit(r, e), prev, index), ups[1..], base),
                          hist + Kept(e) + Merge(olds, ups[1..], base))
    ensures Remembers(Parse(r, prev, index, OldNum(r, prev, index), ups, base), hist + Merge(olds, ups, base))
  {
    var e := Apply(base(ups[0].num), ups[0]);
    MergeStep(hist, e, Merge(olds, ups[1..], base), Merge(olds, ups, base));
  }

  /** The entity that an old entity at the head of the merge turns into, and the updates left. */
  function TakeOld(o: Entity, ups: Updates): (Entity, Updates) {
    if ups == [] || o.number < ups[0].num then (o, ups) else (Apply(o, ups[0]), ups[1..])
  }

  lemma ParseTakesOld(r: Ring, prev: Frame, index: nat, ups: Updates, base: Baselines)
    requires IsRing(r) && index < prev.count
    requires ups == [] || OldEntity(r, prev, index).number <= ups[0].num
    ensures var (e, ups1) := TakeOld(OldEntity(r, prev, index), ups);
            var r1 := Commit(r, e);
            Parse(r, prev, index, OldNum(r, prev, index), ups, base) ==
            Parse(r1, prev, index + 1, OldNum(r1, prev, index + 1), ups1, base)
  {
  }

  lemma SameOldNum(r: Ring, hist: seq<Entity>, e: Entity, prev: Frame, index: nat, olds: seq<Entity>)
    requires Remembers(r, hist) && Remembers(Commit(r, e), hist + Kept(e))
    requires index <= prev.count && prev.first + prev.count <= |hist|
    requires olds == hist[prev.first + index..prev.first + prev.count]
    requires olds != [] ==> |hist| + 1 < prev.first + index + |r.slots|
    ensures OldNum(r, prev, index) == OldNum(Commit(r, e), prev, index)
    ensures OldNum(r, prev, index) == if olds == [] then NO_ENTITY else olds[0].number
    ensures prev.first + prev.count <= |hist + Kept(e)|
    ensures olds == (hist + Kept(e))[prev.first + index..prev.first + prev.count]
  {
    if olds != [] {
      ReadsHistory(r, hist, prev, index);
      ReadsHistory(Commit(r, e), hist + Kept(e), prev, index);
    }
  }

  lemma ReadsHistory(r: Ring, hist: seq<Entity>, prev: Frame, index: nat)
    requires Remembers(r, hist)
    requires index < prev.count && prev.first + index < |hist| < prev.first + index + |r.slots|
    ensures OldEntity(r, prev, index) == hist[prev.first + index]
    ensures OldNum(r, prev, index) == hist[prev.first + index].number
  {
  }

  lemma MergeStep(hist: seq<Entity>, e: Entity, rest: seq<Entity>, merged: seq<Entity>)
    requires merged == Kept(e) + rest
    ensures hist + Kept(e) + rest == hist + merged
  {
  }

  /**
   * The guard on a delta frame: with at most that many entities written since the old frame, and fewer
   * baseline inserts than a snapshot has room for, no old entity is overwritten before it is read.
   */
  lemma GuardedPacket(r: Ring, hist: seq<Entity>, prev: Frame, ups: Updates, base: Baselines, maxSnapshotEntities: nat)
    requires Remembers(r, hist)
    requires prev.count > 0 && prev.first + prev.count <= |hist|
    requires maxSnapshotEntities <= |r.slots| && r.next <= prev.first + (|r.slots| - maxSnapshotEntities)
    requires Inserts(hist[prev.first..prev.first + prev.count], ups) < maxSnapshotEntities
    ensures Remembers(ParsePacket(r, Some(prev), ups, base),
                      hist + Merge(hist[prev.first..prev.first + prev.count], ups, base))
  {
    ParseMerges(r, hist, prev, 0, ups, base, hist[prev.first..prev.first + prev.count]);
  }

  /** Without an old frame every update starts from its baseline, and nothing can be overwritten. */
  lemma FullPacket(r: Ring, hist: seq<Entity>, ups: Updates, base: Baselines)
    requires Remembers(r, hist)
    ensures Remembers(ParsePacket(r, None, ups, base), hist + Merge([], ups, base))
  {
    ParseMerges(r, hist, Frame(0, 0), 0, ups, base, []);
  }

  // ---------------------------------------------------------------------------------------------
  // The merge, entity by entity

  ghost predicate Ascending(s: seq<Entity>) {
    && (forall i :: 0 <= i < |s| ==> s[i].number < ENTITYNUM_NONE)
    && (forall i, j :: 0 <= i < j < |s| ==> s[i].number < s[j].number)
  }

  ghost predicate AscendingUpdates(ups: Updates) {
    forall i, j :: 0 <= i < j < |ups| ==> ups[i].num < ups[j].num
  }

  function Find(s: seq<Entity>, x: EntityNum): Option<map<nat, int>> {
    if s == [] then None else if s[0].number == x then Some(s[0].fields) else Find(s[1..], x)
  }

  function UpdateOf(ups: Updates, x: EntityNum): Option<Delta> {
    if ups == [] then None else if ups[0].num == x then Some(ups[0].delta) else UpdateOf(ups[1..], x)
  }

  /** What an update leaves of an entity: removed is gone, changed starts from the old state or the baseline. */
  function Updated(was: Option<map<nat, int>>, u: Option<Delta>, baseline: map<nat, int>): Option<map<nat, int>> {
    match u
    case None => was
    case Some(Removed) => None
    case Some(Changed(patch)) => Some((if was.Some? then was.value else baseline) + patch)
  }

  lemma {:induction false} FindNothing(s: seq<Entity>, x: EntityNum)
    requires forall i :: 0 <= i < |s| ==> s[i].number != x
    ensures Find(s, x) == None
  {
    if s != [] {
      FindNothing(s[1..], x);
    }
  }

  lemma {:induction false} NoUpdate(ups: Updates, x: EntityNum)
    requires forall i :: 0 <= i < |ups| ==> ups[i].num != x
    ensures UpdateOf(ups, x) == None
  {
    if ups != [] {
      NoUpdate(ups[1..], x);
    }
  }

  lemma {:induction false} FindAppended(e: Entity, rest: seq<Entity>, x: EntityNum)
    requires x != ENTITYNUM_NONE
    ensures Find(Kept(e) + rest, x) ==
            if e.number == x then Some(e.fields) else Find(rest, x)
  {
    assert e.number != ENTITYNUM_NONE ==> ([e] + rest)[1..] == rest;
    assert e.number == ENTITYNUM_NONE ==> [] + rest == rest;
  }

  /** For ascending frames and streams the merge holds for every number just what its update says. */
  lemma {:induction false} MergeByNumber(prev: seq<Entity>, ups: Updates, base: Baselines, x: EntityNum)
    requires Ascending(prev) && AscendingUpdates(ups) && x != ENTITYNUM_NONE
    ensures Find(Merge(prev, ups, base), x) == Updated(Find(prev, x), UpdateOf(ups, x), base(x).fields)
    decreases |prev| + |ups|
  {
    if ups == [] {
    } else if prev != [] && prev[0].number <= ups[0].num {
      var (e, ups1) := TakeOld(prev[0], ups);
      MergeByNumber(prev[1..], ups1, base, x);
      FindAppended(e, Merge(prev[1..], ups1, base), x);
      if x == prev[0].number {
        FindNothing(prev[1..], x);
        NoUpdate(ups1, x);
      }
    } else {
      var e := Apply(base(ups[0].num), ups[0]);
      MergeByNumber(prev, ups[1..], base, x);
      FindAppended(e, Merge(prev, ups[1..], base), x);
      if x == ups[0].num {
        FindNothing(prev, x);
        NoUpdate(ups[1..], x);
      }
    }
  }

  ghost predicate AscendingAbove(s: seq<Entity>, above: int) {
    Ascending(s) && forall i :: 0 <= i < |s| ==> above < s[i].number
  }

  ghost predicate UpdatesAbove(ups: Updates, above: int) {
    AscendingUpdates(ups) && forall i :: 0 <= i < |ups| ==> above < ups[i].num
  }

  lemma AscendsInFront(e: Entity, num: int, rest: seq<Entity>, above: int)
    requires AscendingAbove(rest, num) && above < num && (e.number == num || e.number == ENTITYNUM_NONE)
    ensures AscendingAbove(Kept(e) + rest, above)
  {
    if e.number == ENTITYNUM_NONE {
      assert Kept(e) + rest == rest;
    }
  }

  lemma LaterOlds(prev: seq<Entity>, above: int)
    requires AscendingAbove(prev, above) && prev != []
    ensures AscendingAbove(prev[1..], prev[0].number)
  {
  }

  lemma LaterUpdates(ups: Updates, above: int)
    requires UpdatesAbove(ups, above) && ups != []
    ensures UpdatesAbove(ups[1..], ups[0].num)
    ensures forall num :: num < ups[0].num ==> UpdatesAbove(ups, num)
  {
  }

  lemma OldsAbove(prev: seq<Entity>, above: int, num: int)
    requires AscendingAbove(prev, above) && (prev != [] ==> num < prev[0].number)
    ensures AscendingAbove(prev, num)
  {
  }

  /** The merge stays in ascending order. */
  lemma {:induction false} MergeAscends(prev: seq<Entity>, ups: Updates, base: Baselines, above: int)
    requires AscendingAbove(prev, above) && UpdatesAbove(ups, above)
    ensures AscendingAbove(Merge(prev, ups, base), above)
    decreases |prev| + |ups|
  {
    if ups != [] {
      LaterUpdates(ups, above);
      if prev != [] && prev[0].number <= ups[0].num {
        var (e, ups1) := TakeOld(prev[0], ups);
        LaterOlds(prev, above);
        MergeAscends(prev[1..], ups1, base, prev[0].number);
        AscendsInFront(e, prev[0].number, Merge(prev[1..], ups1, base), above);
        assert Merge(prev, ups, base) == Kept(e) + Merge(prev[1..], ups1, base);
      } else {
        OldsAbove(prev, above, ups[0].num);
        MergeAscends(prev, ups[1..], base, ups[0].num);
        AscendsInFront(Apply(base(ups[0].num), ups[0]), ups[0].num, Merge(prev, ups[1..], base), above);
      }
    }
  }

  // ---------------------------------------------------------------------------------------------
  // An empty old frame

  /**
   * The entities after an empty old frame: the first read takes an entity y from its slot, which the parse
   * remembers by the number n and treats as an old one.
   */
  function WithPhantom(n: EntityNum, y: Entity, ups: Updates, base: Baselines): seq<Entity> {
    if ups == [] then Kept(y)
    else if n < ups[0].num then Kept(y) + Merge([], ups, base)
    else if n == ups[0].num then Kept(Apply(y, ups[0])) + Merge([], ups[1..], base)
    else Kept(Apply(base(ups[0].num), ups[0])) + WithPhantom(n, y, ups[1..], base)
  }

  /** What the slot that is written next, holding x, holds when the updates have come to the number n. */
  function Overwritten(x: Entity, n: EntityNum, ups: Updates, base: Baselines): Entity
    decreases |ups|
  {
    if ups == [] || n <= ups[0].num then x
    else
      var e := Apply(base(ups[0].num), ups[0]);
      if e.number == ENTITYNUM_NONE then Overwritten(e, n, ups[1..], base) else e
  }

  /** The slot that an empty old frame starts at. */
  function SlotAt(r: Ring, first: nat): Entity
    requires IsRing(r)
  {
    r.slots[first % |r.slots|]
  }

  /** The entity that the parse takes for an old one; with nothing counted since, its slot is overwritten first. */
  function Phantom(r: Ring, first: nat, ups: Updates, base: Baselines): Entity
    requires IsRing(r)
  {
    var x := SlotAt(r, first);
    if r.next == first then Overwritten(x, x.number, ups, base) else x
  }

  /** The parse has come to the end of the old frame: it goes on as without one. */
  lemma {:induction false} NoMoreOld(r: Ring, prev: Frame, index: nat, ups: Updates, base: Baselines)
    requires IsRing(r)
    ensures Parse(r, prev, index, NO_ENTITY, ups, base) == Parse(r, Frame(0, 0), 0, NO_ENTITY, ups, base)
    decreases |ups|
  {
    if ups != [] {
      NoMoreOld(Commit(r, Apply(base(ups[0].num), ups[0])), prev, index, ups[1..], base);
    }
  }

  /** An entity is written, and the updates left start from their baselines. */
  lemma WrittenThenMerged(r: Ring, hist: seq<Entity>, prev: Frame, e: Entity, ups: Updates, base: Baselines)
    requires Remembers(r, hist)
    ensures Remembers(Parse(Commit(r, e), prev, 1, NO_ENTITY, ups, base), hist + (Kept(e) + Merge([], ups, base)))
  {
    CommitRemembers(r, hist, e);
    NoMoreOld(Commit(r, e), prev, 1, ups, base);
    FullPacket(Commit(r, e), hist + Kept(e), ups, base);
    assert hist + Kept(e) + Merge([], ups, base) == hist + (Kept(e) + Merge([], ups, base));
  }

  /** The parse reaches the phantom, which its slot still holds. */
  lemma PhantomTaken(r: Ring, hist: seq<Entity>, first: nat, n: EntityNum, ups: Updates, base: Baselines)
    requires Remembers(r, hist)
    requires ups == [] || n <= ups[0].num
    ensures Remembers(Parse(r, Frame(first, 0), 0, n, ups, base),
                      hist + WithPhantom(n, SlotAt(r, first), ups, base))
  {
    var prev, y := Frame(first, 0), SlotAt(r, first);
    var (e, ups1) := if ups == [] || n < ups[0].num then (y, ups) else (Apply(y, ups[0]), ups[1..]);
    WrittenThenMerged(r, hist, prev, e, ups1, base);
    assert OldNum(Commit(r, e), prev, 1) == NO_ENTITY;
    if ups == [] {
      assert Kept(e) + Merge([], ups1, base) == Kept(e);
    }
  }

  /** An entity inserted below the phantom's number: what is left of the parse, and of the result. */
  lemma PhantomInsert(r: Ring, hist: seq<Entity>, first: nat, n: EntityNum, y: Entity, ups: Updates, base: Baselines,
                      e: Entity)
    requires Remembers(r, hist)
    requires ups != [] && n > ups[0].num && e == Apply(base(ups[0].num), ups[0])
    requires Remembers(Parse(Commit(r, e), Frame(first, 0), 0, n, ups[1..], base),
                       hist + Kept(e) + WithPhantom(n, y, ups[1..], base))
    ensures Remembers(Parse(r, Frame(first, 0), 0, n, ups, base), hist + WithPhantom(n, y, ups, base))
  {
    assert hist + Kept(e) + WithPhantom(n, y, ups[1..], base)
        == hist + (Kept(e) + WithPhantom(n, y, ups[1..], base));
  }

  /** The phantom's slot lies in the history, where nothing reaches it before it is read. */
  lemma {:induction false} PhantomStays(r: Ring, hist: seq<Entity>, first: nat, n: EntityNum, ups: Updates,
                                        base: Baselines)
    requires Remembers(r, hist) && first < |hist|
    requires |hist| + Inserts([Entity(n, map[])], ups) < first + |r.slots|
    ensures Remembers(Parse(r, Frame(first, 0), 0, n, ups, base), hist + WithPhantom(n, hist[first], ups, base))
    decreases |ups|
  {
    if ups == [] || n <= ups[0].num {
      PhantomTaken(r, hist, first, n, ups, base);
    } else {
      var e := Apply(base(ups[0].num), ups[0]);
      CommitRemembers(r, hist, e);
      PhantomStays(Commit(r, e), hist + Kept(e), first, n, ups[1..], base);
      PhantomInsert(r, hist, first, n, hist[first], ups, base, e);
    }
  }

  /** The phantom's slot is the one that is written next. */
  lemma {:induction false} PhantomNext(r: Ring, hist: seq<Entity>, n: EntityNum, ups: Updates, base: Baselines)
    requires Remembers(r, hist)
    requires Inserts([Entity(n, map[])], ups) < |r.slots|
    ensures Remembers(Parse(r, Frame(|hist|, 0), 0, n, ups, base),
                      hist + WithPhantom(n, Overwritten(SlotAt(r, |hist|), n, ups, base), ups, base))
    decreases |ups|
  {
    if ups == [] || n <= ups[0].num {
      PhantomTaken(r, hist, |hist|, n, ups, base);
    } else {
      var e := Apply(base(ups[0].num), ups[0]);
      CommitRemembers(r, hist, e);
      if e.number == ENTITYNUM_NONE {
        assert hist + Kept(e) == hist;
        PhantomNext(Commit(r, e), hist, n, ups[1..], base);
      } else {
        PhantomStays(Commit(r, e), hist + Kept(e), |hist|, n, ups[1..], base);
      }
      PhantomInsert(r, hist, |hist|, n, Overwritten(SlotAt(r, |hist|), n, ups, base), ups, base, e);
    }
  }

  /**
   * An old frame without entities: the first read takes whatever lies in its slot. What the parse leaves is
   * exactly the merge with this phantom, as long as its slot is not reached by the inserts below it.
   */
  lemma EmptyFramePacket(r: Ring, hist: seq<Entity>, first: nat, ups: Updates, base: Baselines)
    requires Remembers(r, hist) && first <= |hist|
    requires |hist| + Inserts([SlotAt(r, first)], ups) < first + |r.slots|
    ensures Remembers(ParsePacket(r, Some(Frame(first, 0)), ups, base),
                      hist + WithPhantom(SlotAt(r, first).number, Phantom(r, first, ups, base), ups, base))
  {
    var n := SlotAt(r, first).number;
    SameInserts([SlotAt(r, first)], [Entity(n, map[])], ups);
    if first == |hist| {
      PhantomNext(r, hist, n, ups, base);
    } else {
      PhantomStays(r, hist, first, n, ups, base);
    }
  }

  /** Only the numbers matter for the inserts. */
  lemma {:induction false} SameInserts(a: seq<Entity>, b: seq<Entity>, ups: Updates)
    requires |a| == |b| && forall i :: 0 <= i < |a| ==> a[i].number == b[i].number
    ensures Inserts(a, ups) == Inserts(b, ups)
    decreases |a| + |ups|
  {
    if ups != [] && a != [] {
      if a[0].number < ups[0].num {
        SameInserts(a[1..], b[1..], ups);
      } else if a[0].number == ups[0].num {
        SameInserts(a[1..], b[1..], ups[1..]);
      } else {
        SameInserts(a, b, ups[1..]);
      }
    }
  }

  /**
   * The phantom leaves no trace: it is removed, or what changes of it makes it what its baseline would become,
   * or the stream does not name it and it is a removed one already.
   */
  predicate Harmless(n: EntityNum, y: Entity, update: Option<Delta>, baseline: Entity) {
    match update
    case None => y.number == ENTITYNUM_NONE
    case Some(Removed) => true
    case Some(Changed(patch)) => y.fields + patch == baseline.fields + patch
  }

  /** For an ascending stream, an empty old frame is parsed like none if and only if the phantom is harmless. */
  lemma {:induction false} EmptyFrameMergesExactlyWhen(n: EntityNum, y: Entity, ups: Updates, base: Baselines)
    requires AscendingUpdates(ups)
    ensures WithPhantom(n, y, ups, base) == Merge([], ups, base) <==> Harmless(n, y, UpdateOf(ups, n), base(n))
    decreases |ups|
  {
    if ups == [] {
    } else if n < ups[0].num {
      NoUpdate(ups, n);
      assert |WithPhantom(n, y, ups, base)| == |Kept(y)| + |Merge([], ups, base)|;
      assert Kept(y) == [] ==> Kept(y) + Merge([], ups, base) == Merge([], ups, base);
    } else if n == ups[0].num {
      SameTail(Kept(Apply(y, ups[0])), Kept(Apply(base(n), ups[0])), Merge([], ups[1..], base));
    } else {
      EmptyFrameMergesExactlyWhen(n, y, ups[1..], base);
      SameHead(Kept(Apply(base(ups[0].num), ups[0])), WithPhantom(n, y, ups[1..], base), Merge([], ups[1..], base));
    }
  }

  lemma SameTail(a: seq<Entity>, b: seq<Entity>, rest: seq<Entity>)
    ensures a + rest == b + rest <==> a == b
  {
    if a + rest == b + rest {
      assert a == (a + rest)[..|a|] == (b + rest)[..|b|] == b;
    }
  }

  lemma SameHead(head: seq<Entity>, a: seq<Entity>, b: seq<Entity>)
    ensures head + a == head + b <==> a == b
  {
    if head + a == head + b {
      assert a == (head + a)[|head|..] == (head + b)[|head|..] == b;
    }
  }
}
