/** The client's snapshot buffers (Client/ServerSnapshot.cpp) and the parser that fills them. */
module ServerSnapshot {
  import opened Division
  import opened Options
  import opened Snapshot
  import opened Words

  const MAX_SNAPSHOT_ENTITIES: nat := 128

  /** The part of a raw snapshot that the buffers depend on. */
  datatype RawSnapshot = RawSnapshot(valid: bool, messageNum: nat, deltaNum: int, frame: Frame)

  /** The number that a message refers to; from 0 down, it refers to none. */
  function DeltaNum(messageNum: nat, deltaByte: Byte): int {
    if deltaByte == 0 then -1 else messageNum - deltaByte
  }

  /** The slot that a message refers to. */
  function DeltaFrom(snapshots: seq<RawSnapshot>, deltaNum: int): Option<RawSnapshot>
    requires snapshots != []
  {
    if deltaNum <= 0 then None else Some(snapshots[deltaNum % |snapshots|])
  }

  function FrameOf(s: Option<RawSnapshot>): Option<Frame> {
    if s == None then None else Some(s.value.frame)
  }

  class SnapshotManager {
    /** The two circular buffers, and how many entities a snapshot for the caller holds. */
    const parseEntities: array<Entity>
    const snapshots: array<RawSnapshot>
    const maxEntitiesInSnapshot: nat
    var parseEntitiesNum: nat
    var currentSnap: RawSnapshot

    /** Every entity counted so far. */
    ghost var hist: seq<Entity>
    /** The entities parsed for each accepted message number. */
    ghost var frames: map<nat, seq<Entity>>

    ghost function TheRing(): Ring
      reads this, parseEntities
    {
      Ring(parseEntities[..], parseEntitiesNum)
    }

    /** A stored valid snapshot is the latest of its slot, and its entities are those parsed for it. */
    ghost predicate Kept(s: RawSnapshot, slot: nat)
      requires snapshots.Length > 0
      reads this
    {
      && s.messageNum % snapshots.Length == slot
      && s.messageNum <= currentSnap.messageNum < s.messageNum + snapshots.Length
      && s.messageNum in frames
      && s.frame.first + s.frame.count <= |hist|
      && frames[s.messageNum] == hist[s.frame.first..s.frame.first + s.frame.count]
    }

    /** The old frame holds what was parsed for its number. */
    ghost predicate Recorded(prev: Option<Frame>, num: int)
      reads this
    {
      prev.Some? ==>
        && prev.value.first + prev.value.count <= |hist|
        && num >= 0 && num in frames && frames[num] == Entities(hist, prev.value)
    }

    /** A number's slot holds its snapshot, which is valid and not too old for the ring. */
    predicate Usable(num: nat)
      requires snapshots.Length > 0
      reads this, snapshots
    {
      var s := snapshots[num % snapshots.Length];
      s.valid && s.messageNum == num && parseEntitiesNum + MAX_SNAPSHOT_ENTITIES <= s.frame.first + parseEntities.Length
    }

    /** With a new message number, a snapshot as many numbers back as there are slots is not valid any more. */
    ghost function Skipped(s: RawSnapshot, messageNum: nat): RawSnapshot {
      if s.messageNum + snapshots.Length <= messageNum then s.(valid := false) else s
    }

    ghost predicate Valid()
      reads this, parseEntities, snapshots
    {
      && Remembers(TheRing(), hist)
      && snapshots.Length > 0 && parseEntities.Length >= MAX_SNAPSHOT_ENTITIES
      && (currentSnap.valid ==> snapshots[currentSnap.messageNum % snapshots.Length] == currentSnap)
      && (forall slot {:trigger snapshots[slot]} :: 0 <= slot < snapshots.Length && snapshots[slot].valid ==>
            Kept(snapshots[slot], slot))
    }

    constructor (zero: Entity, maxParseEntities: nat, packetBackup: nat, maxEntities: nat)
      requires maxParseEntities >= MAX_SNAPSHOT_ENTITIES && packetBackup > 0
      ensures Valid() && hist == [] && frames == map[] && currentSnap.messageNum == 0
      ensures parseEntities.Length == maxParseEntities && snapshots.Length == packetBackup
      ensures maxEntitiesInSnapshot == maxEntities
      ensures fresh(parseEntities) && fresh(snapshots)
      ensures TheRing() == Ring(seq(maxParseEntities, _ => zero), 0)
    {
      parseEntities := new Entity[maxParseEntities](_ => zero);
      parseEntitiesNum, maxEntitiesInSnapshot := 0, maxEntities;
      var empty := RawSnapshot(false, 0, 0, Frame(0, 0));
      snapshots := new RawSnapshot[packetBackup](_ => empty);
      currentSnap := empty;
      hist, frames := [], map[];
    }

    // -------------------------------------------------------------------------------------------
    // Parsing

    method ParseDeltaEntity(from: Entity, u: Option<Update>)
      requires parseEntities.Length > 0
      modifies this`parseEntitiesNum, parseEntities
      ensures TheRing() == Commit(old(TheRing()), if u.Some? then Apply(from, u.value) else from)
    {
      var slot := parseEntitiesNum % parseEntities.Length;
      match u {
        case None => parseEntities[slot] := from;
        case Some(update) => parseEntities[slot] := Apply(from, update);
      }
      if parseEntities[slot].number == ENTITYNUM_NONE {
        return;
      }
      parseEntitiesNum := parseEntitiesNum + 1;
    }

    /** Read the number of the old entity at an index, or find the old frame at its end. */
    method NextOld(prev: Frame, index: nat) returns (oldNum: nat)
      requires parseEntities.Length > 0
      ensures oldNum == OldNum(TheRing(), prev, index)
    {
      if index >= prev.count {
        oldNum := NO_ENTITY;
      } else {
        oldNum := parseEntities[(prev.first + index) % parseEntities.Length].number;
      }
    }

    /** Parse the old entity at an index, with an update or unchanged, and go on to the next. */
    method ParseOld(prev: Frame, index: nat, u: Option<Update>) returns (index': nat, oldNum: nat)
      requires parseEntities.Length > 0
      modifies this`parseEntitiesNum, parseEntities
      ensures var e := OldEntity(old(TheRing()), prev, index);
              TheRing() == Commit(old(TheRing()), if u.Some? then Apply(e, u.value) else e)
      ensures index' == index + 1 && oldNum == OldNum(TheRing(), prev, index')
    {
      ParseDeltaEntity(parseEntities[(prev.first + index) % parseEntities.Length], u);
      index' := index + 1;
      oldNum := NextOld(prev, index');
    }

    /** Copy old entities up to the number of the next update; without one, copy all that are left. */
    method CopyOlds(prev: Frame, index0: nat, oldNum0: nat, ups: Updates, base: Baselines)
      returns (index: nat, oldNum: nat)
      requires parseEntities.Length > 0
      modifies this`parseEntitiesNum, parseEntities
      ensures Parse(TheRing(), prev, index, oldNum, ups, base)
           == Parse(old(TheRing()), prev, index0, oldNum0, ups, base)
      ensures if ups == [] then oldNum == NO_ENTITY else oldNum >= ups[0].num
    {
      index, oldNum := index0, oldNum0;
      while if ups == [] then oldNum != NO_ENTITY else oldNum < ups[0].num
        invariant Parse(TheRing(), prev, index, oldNum, ups, base) ==
                  Parse(old(TheRing()), prev, index0, oldNum0, ups, base)
        decreases StepsLeft(prev, index, oldNum)
      {
        index, oldNum := ParseOld(prev, index, None);
      }
    }

    method ParsePacketEntities(prev: Option<Frame>, ups: Updates, base: Baselines)
      requires parseEntities.Length > 0
      modifies this`parseEntitiesNum, parseEntities
      ensures TheRing() == ParsePacket(old(TheRing()), prev, ups, base)
    {
      var f, oldIndex: nat, oldNum: nat := Frame(0, 0), 0, NO_ENTITY;
      if prev.Some? {
        f := prev.value;
        oldNum := parseEntities[f.first % parseEntities.Length].number;
      }
      ghost var target := ParsePacket(TheRing(), prev, ups, base);
      var k := 0;
      while k < |ups|
        invariant k <= |ups|
        invariant Parse(TheRing(), f, oldIndex, oldNum, ups[k..], base) == target
      {
        var u := ups[k];
        assert ups[k..][0] == u && ups[k..][1..] == ups[k + 1..];
        oldIndex, oldNum := CopyOlds(f, oldIndex, oldNum, ups[k..], base);
        if oldNum == u.num {
          oldIndex, oldNum := ParseOld(f, oldIndex, Some(u));
        } else {
          ParseDeltaEntity(base(u.num), Some(u));
        }
        k := k + 1;
      }
      oldIndex, oldNum := CopyOlds(f, oldIndex, oldNum, [], base);
    }

    // -------------------------------------------------------------------------------------------
    // Accepting a snapshot

    /** readOldSnapshot: the frame that the delta refers to, and whether the delta can be trusted. */
    method ReadOldSnapshot(messageNum: nat, deltaByte: Byte)
      returns (deltaNum: int, valid: bool, prev: Option<Frame>)
      requires Valid()
      ensures deltaNum == DeltaNum(messageNum, deltaByte)
      ensures prev == FrameOf(DeltaFrom(snapshots[..], deltaNum))
      ensures valid <==> deltaByte == 0 || messageNum <= deltaByte || Usable(messageNum - deltaByte)
      ensures valid ==> Recorded(prev, deltaNum)
    {
      deltaNum := if deltaByte == 0 then -1 else messageNum - deltaByte;
      valid := false;
      if deltaNum <= 0 {
        return deltaNum, true, None;
      }
      assert snapshots[..][deltaNum % snapshots.Length] == snapshots[deltaNum % snapshots.Length];
      var s := snapshots[deltaNum % snapshots.Length];
      if !s.valid {
        // the delta starts from an invalid frame
      } else if s.messageNum != deltaNum {
        // the frame has been replaced in its slot
      } else if parseEntitiesNum > s.frame.first + (parseEntities.Length - MAX_SNAPSHOT_ENTITIES) {
        // its entities are about to be overwritten
      } else {
        valid := true;
        assert Kept(s, deltaNum % snapshots.Length);
      }
      prev := Some(s.frame);
    }

    /** The slots of the message numbers between the current one and a new one are invalidated. */
    method SkipTo(messageNum: nat)
      requires Valid()
      requires messageNum >= currentSnap.messageNum
      modifies snapshots
      ensures forall slot {:trigger snapshots[slot]} ::
                0 <= slot < snapshots.Length && slot != messageNum % snapshots.Length ==>
                snapshots[slot] == Skipped(old(snapshots[slot]), messageNum)
    {
      var n := currentSnap.messageNum + 1;
      if messageNum >= snapshots.Length + n {
        n := messageNum - (snapshots.Length - 1);
      }
      ghost var n0 := n;
      while n < messageNum
        invariant n0 <= n && (n <= messageNum || n == n0)
        invariant forall slot {:trigger snapshots[slot]} :: 0 <= slot < snapshots.Length ==>
                    || snapshots[slot] == old(snapshots[slot])
                    || snapshots[slot] == Skipped(old(snapshots[slot]), messageNum)
        invariant forall m :: n0 <= m < n ==> !snapshots[m % snapshots.Length].valid
        modifies snapshots
      {
        var slot := n % snapshots.Length;
        if snapshots[slot].valid {
          assert old(Kept(snapshots[slot], slot));
          SameSlotApart(n, snapshots[slot].messageNum, snapshots.Length);
        }
        snapshots[slot] := snapshots[slot].(valid := false);
        n := n + 1;
      }
      forall slot {:trigger snapshots[slot]}
        | 0 <= slot < snapshots.Length && slot != messageNum % snapshots.Length && snapshots[slot].valid
        ensures messageNum < snapshots[slot].messageNum + snapshots.Length
      {
        var m := NumberOfSlot(messageNum, slot, snapshots.Length);
        assert old(Kept(snapshots[slot], slot));
        assert m < n0;
        SameSlotApart(m, snapshots[slot].messageNum, snapshots.Length);
      }
    }

    /** setNewSnap: invalidate the slots of the message numbers skipped, then store the new snapshot. */
    method SetNewSnap(s: RawSnapshot, ghost entities: seq<Entity>)
      requires Valid()
      requires s.valid && s.messageNum >= currentSnap.messageNum
      requires s.frame.first + s.frame.count <= |hist|
      requires entities == hist[s.frame.first..s.frame.first + s.frame.count]
      modifies this`currentSnap, this`frames, snapshots
      ensures Valid()
      ensures currentSnap == s && frames == old(frames)[s.messageNum := entities]
      ensures forall slot {:trigger snapshots[slot]} :: 0 <= slot < snapshots.Length ==>
                snapshots[slot] == if slot == s.messageNum % snapshots.Length then s
                                   else Skipped(old(snapshots[slot]), s.messageNum)
    {
      SkipTo(s.messageNum);
      currentSnap := s;
      snapshots[s.messageNum % snapshots.Length] := s;
      frames := frames[s.messageNum := entities];
    }

    /**
     * A snapshot message: its delta is resolved and its entities are parsed in any case; a snapshot that is
     * not valid is dropped. What a valid one leaves for its number is the merge of the frame of the message
     * that is as many numbers back as its delta byte tells, or of a phantom when that frame is empty: always,
     * as long as fewer than 128 of its entities are new ones in front of an old one.
     */
    method ParseSnapshot(messageNum: nat, deltaByte: Byte, ups: Updates, base: Baselines)
      returns (accepted: bool)
      requires Valid()
      requires messageNum >= currentSnap.messageNum
      modifies this`parseEntitiesNum, this`currentSnap, this`hist, this`frames, parseEntities, snapshots
      ensures Valid() && old(hist) <= hist
      ensures TheRing() == ParsePacket(old(TheRing()),
                FrameOf(DeltaFrom(old(snapshots[..]), DeltaNum(messageNum, deltaByte))), ups, base)
      ensures accepted <==> deltaByte == 0 || messageNum <= deltaByte || old(Usable(messageNum - deltaByte))
      ensures accepted ==>
                && currentSnap == RawSnapshot(true, messageNum, DeltaNum(messageNum, deltaByte),
                                              Frame(old(parseEntitiesNum), |hist| - |old(hist)|))
                && snapshots[messageNum % snapshots.Length] == currentSnap
                && messageNum in frames && frames == old(frames)[messageNum := frames[messageNum]]
                && |frames[messageNum]| == |hist| - |old(hist)|
      ensures accepted ==> forall slot {:trigger snapshots[slot]} ::
                0 <= slot < snapshots.Length && slot != messageNum % snapshots.Length ==>
                snapshots[slot] == Skipped(old(snapshots[slot]), messageNum)
      ensures accepted && (deltaByte == 0 || messageNum <= deltaByte) ==> frames[messageNum] == Merge([], ups, base)
      ensures accepted && 0 < deltaByte < messageNum ==>
                var num := messageNum - deltaByte;
                && num in old(frames)
                && var first, olds := old(snapshots[num % snapshots.Length]).frame.first, old(frames)[num];
                   && Follows(old(TheRing()), olds, first, frames[messageNum], ups, base)
                   && (Inserts(ReadAsOld(old(TheRing()), olds, first), ups) < MAX_SNAPSHOT_ENTITIES ==>
                        frames[messageNum] == Reconstructed(old(TheRing()), olds, first, ups, base))
      ensures !accepted ==>
                currentSnap == old(currentSnap) && frames == old(frames) && snapshots[..] == old(snapshots[..])
    {
      ghost var r, h, was := TheRing(), hist, frames;
      ghost var prev, more;
      accepted, prev, more := ReadAndSet(messageNum, deltaByte, ups, base);
      if accepted && prev.Some? {
        GuardFollows(r, h, prev.value, was[messageNum - deltaByte], more, ups, base);
      }
    }

    /** The message is read and, unless it is dropped, set; more is what it appends to the history. */
    method ReadAndSet(messageNum: nat, deltaByte: Byte, ups: Updates, base: Baselines)
      returns (accepted: bool, ghost prev: Option<Frame>, ghost more: seq<Entity>)
      requires Valid()
      requires messageNum >= currentSnap.messageNum
      modifies this`parseEntitiesNum, this`currentSnap, this`hist, this`frames, parseEntities, snapshots
      ensures Valid() && hist == old(hist) + more
      ensures prev == FrameOf(DeltaFrom(old(snapshots[..]), DeltaNum(messageNum, deltaByte)))
      ensures TheRing() == ParsePacket(old(TheRing()), prev, ups, base)
      ensures Appended(old(TheRing()), old(hist), prev, more, ups, base)
      ensures accepted ==> old(Recorded(prev, DeltaNum(messageNum, deltaByte)))
      ensures accepted <==> deltaByte == 0 || messageNum <= deltaByte || old(Usable(messageNum - deltaByte))
      ensures accepted ==>
                && currentSnap == RawSnapshot(true, messageNum, DeltaNum(messageNum, deltaByte),
                                              Frame(old(parseEntitiesNum), |hist| - |old(hist)|))
                && snapshots[messageNum % snapshots.Length] == currentSnap
                && frames == old(frames)[messageNum := more]
      ensures accepted ==> forall slot {:trigger snapshots[slot]} ::
                0 <= slot < snapshots.Length && slot != messageNum % snapshots.Length ==>
                snapshots[slot] == Skipped(old(snapshots[slot]), messageNum)
      ensures !accepted ==>
                currentSnap == old(currentSnap) && frames == old(frames) && snapshots[..] == old(snapshots[..])
    {
      var deltaNum, oldFrame;
      deltaNum, accepted, oldFrame := ReadOldSnapshot(messageNum, deltaByte);
      prev := oldFrame;
      var first := parseEntitiesNum;
      more := ParseInto(oldFrame, ups, base);
      if accepted {
        SetNewSnap(RawSnapshot(true, messageNum, deltaNum, Frame(first, parseEntitiesNum - first)), more);
      }
    }

    /** The parse, and what it appends to the history. */
    method ParseInto(prev: Option<Frame>, ups: Updates, base: Baselines) returns (ghost more: seq<Entity>)
      requires Valid()
      modifies this`parseEntitiesNum, this`hist, parseEntities
      ensures Valid()
      ensures TheRing() == ParsePacket(old(TheRing()), prev, ups, base)
      ensures hist == old(hist) + more
      ensures Appended(old(TheRing()), old(hist), prev, more, ups, base)
    {
      ghost var r := TheRing();
      ParsePacketEntities(prev, ups, base);
      more := ParsedEntities(r, hist, prev, ups, base);
      hist := hist + more;
    }

    /**
     * getSnapshot: what it finds for a number up to the current one is the snapshot of that number, with the
     * entities that were parsed for it and not later ones; for a number beyond, it would be another snapshot's.
     */
    method GetSnapshot(n: nat) returns (s: RawSnapshot, entities: Option<seq<Entity>>)
      requires Valid()
      ensures s == snapshots[n % snapshots.Length]
      ensures entities.Some? <==>
                && currentSnap.messageNum < snapshots.Length + n
                && s.valid
                && parseEntitiesNum < parseEntities.Length + s.frame.first
      ensures entities.Some? ==> (s.messageNum == n <==> n <= currentSnap.messageNum)
      ensures entities.Some? ==>
                && s.messageNum in frames
                && var all := frames[s.messageNum];
                   entities.value == if |all| > maxEntitiesInSnapshot then all[..maxEntitiesInSnapshot] else all
    {
      s := snapshots[n % snapshots.Length];
      if currentSnap.messageNum >= snapshots.Length + n {
        return s, None;
      }
      if !s.valid {
        return s, None;
      }
      if parseEntitiesNum >= parseEntities.Length + s.frame.first {
        return s, None;
      }
      assert Kept(s, n % snapshots.Length);
      SameSlotApart(n, s.messageNum, snapshots.Length);
      var count := s.frame.count;
      if count > maxEntitiesInSnapshot {
        count := maxEntitiesInSnapshot;
      }
      var copied := [];
      var i := 0;
      while i < count
        invariant i <= count
        invariant copied == hist[s.frame.first..s.frame.first + i]
      {
        copied := copied + [parseEntities[(s.frame.first + i) % parseEntities.Length]];
        i := i + 1;
      }
      entities := Some(copied);
    }
  }

  /** The entities of a frame. */
  ghost function Entities(hist: seq<Entity>, f: Frame): seq<Entity>
    requires f.first + f.count <= |hist|
  {
    hist[f.first..f.first + f.count]
  }

  /** The entity that is read first of an old frame, whether it has one or not, and the others. */
  ghost function ReadAsOld(r: Ring, olds: seq<Entity>, first: nat): seq<Entity>
    requires IsRing(r)
  {
    if olds == [] then [SlotAt(r, first)] else olds
  }

  /** What an accepted delta leaves: the merge of the old frame, and for an empty one that of its phantom. */
  ghost function Reconstructed(r: Ring, olds: seq<Entity>, first: nat, ups: Updates, base: Baselines): seq<Entity>
    requires IsRing(r)
  {
    if olds == [] then WithPhantom(SlotAt(r, first).number, Phantom(r, first, ups, base), ups, base)
    else Merge(olds, ups, base)
  }

  /** The inserts do not reach an old entity before it is read. */
  ghost predicate InTime(r: Ring, olds: seq<Entity>, first: nat, ups: Updates)
    requires IsRing(r)
  {
    r.next + Inserts(ReadAsOld(r, olds, first), ups) < first + |r.slots|
  }

  /** The entities recorded for a message that refers to a frame. */
  ghost predicate Follows(r: Ring, olds: seq<Entity>, first: nat, entities: seq<Entity>, ups: Updates, base: Baselines)
    requires IsRing(r)
  {
    InTime(r, olds, first, ups) ==> entities == Reconstructed(r, olds, first, ups, base)
  }

  ghost predicate FrameReadable(r: Ring, hist: seq<Entity>, f: Frame, ups: Updates)
    requires IsRing(r)
  {
    f.first + f.count <= |hist| && InTime(r, Entities(hist, f), f.first, ups)
  }

  /** What a packet appends: the merge of nothing, or what an old frame that is read in time is made into. */
  ghost predicate Appended(r: Ring, hist: seq<Entity>, prev: Option<Frame>, more: seq<Entity>, ups: Updates,
                           base: Baselines)
    requires IsRing(r)
  {
    match prev
    case None => more == Merge([], ups, base)
    case Some(f) =>
      FrameReadable(r, hist, f, ups) ==> more == Reconstructed(r, Entities(hist, f), f.first, ups, base)
  }

  /** Under the guard, fewer inserts than a snapshot has room for are in time. */
  lemma GuardInTime(r: Ring, olds: seq<Entity>, first: nat, ups: Updates)
    requires IsRing(r) && |r.slots| >= MAX_SNAPSHOT_ENTITIES
    requires r.next <= first + (|r.slots| - MAX_SNAPSHOT_ENTITIES)
    requires Inserts(ReadAsOld(r, olds, first), ups) < MAX_SNAPSHOT_ENTITIES
    ensures InTime(r, olds, first, ups)
  {
  }

  lemma GuardFollows(r: Ring, hist: seq<Entity>, f: Frame, olds: seq<Entity>, more: seq<Entity>, ups: Updates,
                     base: Baselines)
    requires IsRing(r) && |r.slots| >= MAX_SNAPSHOT_ENTITIES
    requires f.first + f.count <= |hist| && olds == Entities(hist, f)
    requires r.next + MAX_SNAPSHOT_ENTITIES <= f.first + |r.slots|
    requires Appended(r, hist, Some(f), more, ups, base)
    ensures Follows(r, olds, f.first, more, ups, base)
    ensures Inserts(ReadAsOld(r, olds, f.first), ups) < MAX_SNAPSHOT_ENTITIES ==>
              more == Reconstructed(r, olds, f.first, ups, base)
  {
    if Inserts(ReadAsOld(r, olds, f.first), ups) < MAX_SNAPSHOT_ENTITIES {
      GuardInTime(r, olds, f.first, ups);
    }
  }

  /** What a packet appends to the history: the merge, where the old frame is read in time. */
  lemma ParsedEntities(r: Ring, hist: seq<Entity>, prev: Option<Frame>, ups: Updates, base: Baselines)
    returns (more: seq<Entity>)
    requires Remembers(r, hist)
    ensures Remembers(ParsePacket(r, prev, ups, base), hist + more)
    ensures Appended(r, hist, prev, more, ups, base)
  {
    match prev {
      case None =>
        FullPacket(r, hist, ups, base);
        more := Merge([], ups, base);
      case Some(f) =>
        if FrameReadable(r, hist, f, ups) {
          more := Reconstructed(r, Entities(hist, f), f.first, ups, base);
          if f.count == 0 {
            assert Entities(hist, f) == [];
            EmptyFramePacket(r, hist, f.first, ups, base);
          } else {
            ParseMerges(r, hist, f, 0, ups, base, Entities(hist, f));
          }
        } else {
          more := ParseRemembers(r, hist, f, 0, OldEntity(r, f, 0).number, ups, base);
        }
    }
  }

  /**
   * A full message without entities and a delta on it without updates: the new snapshot shows an entity that
   * no message named, and that the merge of the two does not hold.
   */
  method PhantomRun(zero: Entity, base: Baselines) returns (entities: Option<seq<Entity>>)
    requires zero.number < ENTITYNUM_NONE
    ensures entities == Some([zero]) && Merge(Merge([], [], base), [], base) == []
  {
    var m := new SnapshotManager(zero, 256, 32, 256);
    var accepted := m.ParseSnapshot(1, 0, [], base);
    assert m.Kept(m.snapshots[1], 1);
    assert m.frames[1] == [] && m.snapshots[1].frame == Frame(0, 0);
    CopiesPhantom(m.TheRing(), Frame(0, 0), base);
    accepted := m.ParseSnapshot(2, 1, [], base);
    assert m.frames[2] == [zero];
    var s;
    s, entities := m.GetSnapshot(2);
  }

  /**
   * Two full messages and a delta on the first: it is accepted if and only if the two have at most 128
   * entities, and then the caller gets the first message's entities with the updates made.
   */
  method DeltaRun(zero: Entity, base: Baselines, a: nat, b: nat, c: nat, first: Updates, between: Updates,
                  last: Updates)
    returns (accepted: bool, entities: Option<seq<Entity>>)
    requires 0 < a < b < c < a + 32
    ensures accepted <==> |Merge([], first, base)| + |Merge([], between, base)| <= 128
    ensures var olds := Merge([], first, base);
            accepted && olds != [] && Inserts(olds, last) < 128 && |Merge(olds, last, base)| < 256 ==>
            entities == Some(Merge(olds, last, base))
  {
    var m := new SnapshotManager(zero, 256, 32, 256);
    var full := m.ParseSnapshot(a, 0, first, base);
    ghost var s := m.snapshots[a % 32];
    full := m.ParseSnapshot(b, 0, between, base);
    if a % 32 == b % 32 {
      SameSlotApart(a, b, 32);
    }
    assert m.snapshots[a % 32] == s;
    accepted := m.ParseSnapshot(c, c - a, last, base);
    var t;
    t, entities := m.GetSnapshot(c);
  }

  /** Asked for the number 33 after the message 1, with 32 slots: the snapshot of message 1 is handed out. */
  method WrongSnapshotRun(zero: Entity, base: Baselines) returns (s: RawSnapshot, entities: Option<seq<Entity>>)
    ensures entities.Some? && s.messageNum == 1
  {
    var m := new SnapshotManager(zero, 256, 32, 256);
    var accepted := m.ParseSnapshot(1, 0, [], base);
    s, entities := m.GetSnapshot(33);
  }

  lemma CopiesPhantom(r: Ring, prev: Frame, base: Baselines)
    requires IsRing(r) && prev.count == 0 && SlotAt(r, prev.first).number != ENTITYNUM_NONE
    ensures ParsePacket(r, Some(prev), [], base).next == r.next + 1
  {
    var r1 := Commit(r, OldEntity(r, prev, 0));
    assert Parse(r1, prev, 1, OldNum(r1, prev, 1), [], base) == r1;
  }

  /** The latest number up to a given one that falls into a slot. */
  lemma NumberOfSlot(latest: nat, slot: nat, size: nat) returns (m: int)
    requires slot < size && slot != latest % size
    ensures latest - size < m < latest && m % size == slot
  {
    var q, d := (latest - slot) / size, (latest - slot) % size;
    m := latest - d;
    assert m == size * q + slot;
    SameDivision(size, q, slot, m / size, m % size);
  }

  lemma SameSlotApart(m: int, n: int, size: nat)
    requires size > 0 && m % size == n % size
    ensures m == n || m >= n + size || n >= m + size
  {
    var q := n / size - m / size;
    assert n - m == size * (n / size) - size * (m / size) == size * q;
    if m < n < m + size {
      SameDivision(size, q, 0, 0, n - m);
    } else if n < m < n + size {
      assert m - n == size * -q;
      SameDivision(size, -q, 0, 0, m - n);
    }
  }
}
