/** The leaves that a box touches (Utility/Collision/Collision.cpp). */
module LeafListing {
  import opened Geometry

  ghost predicate InBox(p: Vec, mins: Vec, maxs: Vec) {
    mins.x <= p.x <= maxs.x && mins.y <= p.y <= maxs.y && mins.z <= p.z <= maxs.z
  }

  /** The box without its upper faces. */
  ghost predicate InHalfOpenBox(p: Vec, mins: Vec, maxs: Vec) {
    mins.x <= p.x < maxs.x && mins.y <= p.y < maxs.y && mins.z <= p.z < maxs.z
  }

  /** The corner that the bits choose: the lower bound of a coordinate where its bit is set. */
  function Corner(bits: nat, mins: Vec, maxs: Vec): Vec {
    Vec(if bits % 2 == 1 then mins.x else maxs.x,
        if bits / 2 % 2 == 1 then mins.y else maxs.y,
        if bits / 4 % 2 == 1 then mins.z else maxs.z)
  }

  lemma FarCorner(n: Vec, mins: Vec, maxs: Vec)
    ensures Corner(SignBits(n), mins, maxs)
         == Vec(if n.x < 0.0 then mins.x else maxs.x, if n.y < 0.0 then mins.y else maxs.y,
                if n.z < 0.0 then mins.z else maxs.z)
    ensures Corner(7 - SignBits(n), mins, maxs)
         == Vec(if n.x < 0.0 then maxs.x else mins.x, if n.y < 0.0 then maxs.y else mins.y,
                if n.z < 0.0 then maxs.z else mins.z)
  {
  }

  lemma Scaled(n: real, low: real, p: real, high: real)
    requires low <= p <= high
    ensures n * (if n < 0.0 then high else low) <= n * p <= n * (if n < 0.0 then low else high)
  {
    if n < 0.0 {
      assert -n * low <= -n * p <= -n * high;
    }
  }

  lemma DotAtMost(n: Vec, a: Vec, b: Vec)
    requires n.x * a.x <= n.x * b.x && n.y * a.y <= n.y * b.y && n.z * a.z <= n.z * b.z
    ensures Dot(n, a) <= Dot(n, b)
  {
  }

  /** The far corner is the farthest point of the box along the normal, and the near corner the nearest. */
  lemma CornersBound(n: Vec, p: Vec, mins: Vec, maxs: Vec)
    requires InBox(p, mins, maxs)
    ensures Dot(n, Corner(7 - SignBits(n), mins, maxs)) <= Dot(n, p) <= Dot(n, Corner(SignBits(n), mins, maxs))
  {
    var far, near := Corner(SignBits(n), mins, maxs), Corner(7 - SignBits(n), mins, maxs);
    assert n.x * near.x <= n.x * p.x <= n.x * far.x by {
      FarCorner(n, mins, maxs);
      Scaled(n.x, mins.x, p.x, maxs.x);
    }
    assert n.y * near.y <= n.y * p.y <= n.y * far.y by {
      FarCorner(n, mins, maxs);
      Scaled(n.y, mins.y, p.y, maxs.y);
    }
    assert n.z * near.z <= n.z * p.z <= n.z * far.z by {
      FarCorner(n, mins, maxs);
      Scaled(n.z, mins.z, p.z, maxs.z);
    }
    DotAtMost(n, near, p);
    DotAtMost(n, p, far);
  }

  /** The distances of the far and the near corner, by the signs of the normal. */
  method CornerDistances(emins: Vec, emaxs: Vec, n: Vec, signbits: nat) returns (dist1: real, dist2: real)
    requires signbits < 8
    ensures dist1 == Dot(n, Corner(signbits, emins, emaxs))
    ensures dist2 == Dot(n, Corner(7 - signbits, emins, emaxs))
  {
    match signbits {
      case 0 =>
        dist1 := n.x * emaxs.x + n.y * emaxs.y + n.z * emaxs.z;
        dist2 := n.x * emins.x + n.y * emins.y + n.z * emins.z;
        assert Corner(0, emins, emaxs) == Vec(emaxs.x, emaxs.y, emaxs.z);
        assert Corner(7 - 0, emins, emaxs) == Vec(emins.x, emins.y, emins.z);
      case 1 =>
        dist1 := n.x * emins.x + n.y * emaxs.y + n.z * emaxs.z;
        dist2 := n.x * emaxs.x + n.y * emins.y + n.z * emins.z;
        assert Corner(1, emins, emaxs) == Vec(emins.x, emaxs.y, emaxs.z);
        assert Corner(7 - 1, emins, emaxs) == Vec(emaxs.x, emins.y, emins.z);
      case 2 =>
        dist1 := n.x * emaxs.x + n.y * emins.y + n.z * emaxs.z;
        dist2 := n.x * emins.x + n.y * emaxs.y + n.z * emins.z;
        assert Corner(2, emins, emaxs) == Vec(emaxs.x, emins.y, emaxs.z);
        assert Corner(7 - 2, emins, emaxs) == Vec(emins.x, emaxs.y, emins.z);
      case 3 =>
        dist1 := n.x * emins.x + n.y * emins.y + n.z * emaxs.z;
        dist2 := n.x * emaxs.x + n.y * emaxs.y + n.z * emins.z;
        assert Corner(3, emins, emaxs) == Vec(emins.x, emins.y, emaxs.z);
        assert Corner(7 - 3, emins, emaxs) == Vec(emaxs.x, emaxs.y, emins.z);
      case 4 =>
        dist1 := n.x * emaxs.x + n.y * emaxs.y + n.z * emins.z;
        dist2 := n.x * emins.x + n.y * emins.y + n.z * emaxs.z;
        assert Corner(4, emins, emaxs) == Vec(emaxs.x, emaxs.y, emins.z);
        assert Corner(7 - 4, emins, emaxs) == Vec(emins.x, emins.y, emaxs.z);
      case 5 =>
        dist1 := n.x * emins.x + n.y * emaxs.y + n.z * emins.z;
        dist2 := n.x * emaxs.x + n.y * emins.y + n.z * emaxs.z;
        assert Corner(5, emins, emaxs) == Vec(emins.x, emaxs.y, emins.z);
        assert Corner(7 - 5, emins, emaxs) == Vec(emaxs.x, emins.y, emaxs.z);
      case 6 =>
        dist1 := n.x * emaxs.x + n.y * emins.y + n.z * emins.z;
        dist2 := n.x * emins.x + n.y * emaxs.y + n.z * emaxs.z;
        assert Corner(6, emins, emaxs) == Vec(emaxs.x, emins.y, emins.z);
        assert Corner(7 - 6, emins, emaxs) == Vec(emins.x, emaxs.y, emaxs.z);
      case 7 =>
        dist1 := n.x * emins.x + n.y * emins.y + n.z * emins.z;
        dist2 := n.x * emaxs.x + n.y * emaxs.y + n.z * emaxs.z;
        assert Corner(7, emins, emaxs) == Vec(emins.x, emins.y, emins.z);
        assert Corner(7 - 7, emins, emaxs) == Vec(emaxs.x, emaxs.y, emaxs.z);
    }
  }

  /** BoxOnPlaneSide: 1 and 2 for a box on the front and on the back, 3 for one on both sides. */
  method BoxOnPlaneSide(emins: Vec, emaxs: Vec, p: Plane) returns (sides: nat)
    requires p.kind >= 3 ==> p.signbits == SignBits(p.normal)
    ensures sides == SidesOf(emins, emaxs, p)
  {
    if p.kind < 3 {
      if p.dist <= emins.Coordinate(p.kind) {
        return 1;
      }
      if p.dist >= emaxs.Coordinate(p.kind) {
        return 2;
      }
      return 3;
    }
    var dist1, dist2 := CornerDistances(emins, emaxs, p.normal, p.signbits);
    sides := 0;
    if dist1 >= p.dist {
      sides := 1;
    }
    if dist2 < p.dist {
      sides := sides + 2;
    }
  }

  /** The sides of a plane that a box is on, by its farthest and nearest points along the normal. */
  function SidesOf(mins: Vec, maxs: Vec, p: Plane): nat {
    if p.kind < 3 then
      if p.dist <= mins.Coordinate(p.kind) then 1 else if p.dist >= maxs.Coordinate(p.kind) then 2 else 3
    else
      (if Dot(p.normal, Corner(SignBits(p.normal), mins, maxs)) >= p.dist then 1 else 0)
      + if Dot(p.normal, Corner(7 - SignBits(p.normal), mins, maxs)) < p.dist then 2 else 0
  }

  /**
   * What the answer means, exactly: 1 that no point of the half-open box is behind the plane, 2 that none is in
   * front of it, 3 that the closed box has points on both sides.
   */
  lemma SidesMean(mins: Vec, maxs: Vec, p: Plane)
    requires mins.x <= maxs.x && mins.y <= maxs.y && mins.z <= maxs.z
    ensures SidesOf(mins, maxs, p) in {1, 2, 3}
    ensures SidesOf(mins, maxs, p) == 1 ==> forall q :: InHalfOpenBox(q, mins, maxs) ==> Distance(p, q) >= 0.0
    ensures SidesOf(mins, maxs, p) == 2 ==> forall q :: InHalfOpenBox(q, mins, maxs) ==> Distance(p, q) < 0.0
    ensures SidesOf(mins, maxs, p) == 3 ==>
              && (exists q :: InBox(q, mins, maxs) && Distance(p, q) < 0.0)
              && (exists q :: InBox(q, mins, maxs) && Distance(p, q) >= 0.0)
  {
    var far, near := Corner(SignBits(p.normal), mins, maxs), Corner(7 - SignBits(p.normal), mins, maxs);
    assert InBox(far, mins, maxs) && InBox(near, mins, maxs) && InBox(mins, mins, maxs) && InBox(maxs, mins, maxs);
    forall q | InBox(q, mins, maxs)
      ensures Dot(p.normal, near) <= Dot(p.normal, q) <= Dot(p.normal, far)
    {
      CornersBound(p.normal, q, mins, maxs);
    }
    if SidesOf(mins, maxs, p) == 3 {
      assert Distance(p, if p.kind < 3 then mins else near) < 0.0;
      assert Distance(p, if p.kind < 3 then maxs else far) >= 0.0;
    }
  }

  // ---------------------------------------------------------------------------------------------
  // The list

  /** What a list holds: the stored leaves, whether there was no room for one, and the last one inside the world. */
  datatype Listing = Listing(leafs: seq<int>, overflowed: bool, lastLeaf: int)

  /** One leaf offered to a list with room for some number; a cluster of -1 is outside the world. */
  function Store(l: Listing, room: nat, clusters: seq<int>, leaf: nat): Listing
    requires leaf < |clusters|
  {
    var lastLeaf := if clusters[leaf] != -1 then leaf else l.lastLeaf;
    if |l.leafs| >= room then Listing(l.leafs, true, lastLeaf) else Listing(l.leafs + [leaf], l.overflowed, lastLeaf)
  }

  ghost predicate AreLeafs(leafs: seq<nat>, clusters: seq<int>) {
    forall i :: 0 <= i < |leafs| ==> leafs[i] < |clusters|
  }

  /** Leaves offered one after the other. */
  ghost function StoreAll(l: Listing, room: nat, clusters: seq<int>, leafs: seq<nat>): Listing
    requires AreLeafs(leafs, clusters)
  {
    if leafs == [] then l
    else Store(StoreAll(l, room, clusters, leafs[..|leafs| - 1]), room, clusters, leafs[|leafs| - 1])
  }

  lemma {:induction false} StoreAllSplit(l: Listing, room: nat, clusters: seq<int>, a: seq<nat>, b: seq<nat>)
    requires AreLeafs(a, clusters) && AreLeafs(b, clusters)
    ensures AreLeafs(a + b, clusters)
    ensures StoreAll(l, room, clusters, a + b) == StoreAll(StoreAll(l, room, clusters, a), room, clusters, b)
  {
    if b == [] {
      assert a + b == a;
    } else {
      StoreAllSplit(l, room, clusters, a, b[..|b| - 1]);
      assert (a + b)[..|a + b| - 1] == a + b[..|b| - 1];
    }
  }

  /** The list gets the leaves that it has room for, and the flag tells exactly whether it lacks any. */
  lemma {:induction false} StoreAllKeeps(l: Listing, room: nat, clusters: seq<int>, leafs: seq<nat>)
    requires AreLeafs(leafs, clusters) && |l.leafs| <= room
    ensures var stored := StoreAll(l, room, clusters, leafs);
            var all := l.leafs + leafs;
            && stored.leafs == (if |all| <= room then all else all[..room])
            && (stored.overflowed <==> l.overflowed || |all| > room)
  {
    if leafs != [] {
      var front := leafs[..|leafs| - 1];
      StoreAllKeeps(l, room, clusters, front);
      assert l.leafs + leafs == (l.leafs + front) + [leafs[|leafs| - 1]];
    }
  }

  /** leafList_t and the functions that fill it. */
  class LeafList {
    const mins: Vec
    const maxs: Vec
    const clusters: seq<int>
    const list: array<int>
    const maxcount: nat
    var count: nat
    var overflowed: bool
    var lastLeaf: int

    constructor (mins: Vec, maxs: Vec, clusters: seq<int>, list: array<int>, listsize: nat)
      requires listsize <= list.Length
      ensures this.mins == mins && this.maxs == maxs && this.clusters == clusters
      ensures this.list == list && maxcount == listsize
      ensures Valid() && Now() == Listing([], false, 0)
    {
      this.mins, this.maxs, this.clusters := mins, maxs, clusters;
      this.list, maxcount := list, listsize;
      count, overflowed, lastLeaf := 0, false, 0;
    }

    ghost predicate Valid()
      reads this
    {
      count <= maxcount <= list.Length
    }

    function Now(): Listing
      requires Valid()
      reads this, list
    {
      Listing(list[..count], overflowed, lastLeaf)
    }

    /** StoreLeafs. */
    method StoreLeafs(nodenum: int)
      requires Valid() && nodenum < 0 && -1 - nodenum < |clusters|
      modifies this, list
      ensures Valid() && Now() == Store(old(Now()), maxcount, clusters, -1 - nodenum)
    {
      var leafNum := -1 - nodenum;
      if clusters[leafNum] != -1 {
        lastLeaf := leafNum;
      }
      if count >= maxcount {
        overflowed := true;
        return;
      }
      list[count] := leafNum;
      count := count + 1;
    }

    /** BoxLeafnums_r. */
    method BoxLeafnums(nodes: seq<Node>, ghost rank: seq<nat>, start: int)
      requires Valid() && IsTree(nodes, |clusters|, rank) && IsNumber(start, |clusters|, rank) && SignBitsMatch(nodes)
      modifies this, list
      ensures Valid()
      ensures Now() == StoreAll(old(Now()), maxcount, clusters, BoxLeafs(nodes, |clusters|, rank, mins, maxs, start))
      decreases Rank(start, rank), 1
    {
      ghost var target := StoreAll(Now(), maxcount, clusters, BoxLeafs(nodes, |clusters|, rank, mins, maxs, start));
      var nodenum := start;
      while nodenum >= 0
        invariant Valid() && IsNumber(nodenum, |clusters|, rank) && Rank(nodenum, rank) <= Rank(start, rank)
        invariant StoreAll(Now(), maxcount, clusters, BoxLeafs(nodes, |clusters|, rank, mins, maxs, nodenum)) == target
        decreases Rank(nodenum, rank)
      {
        var node := nodes[nodenum];
        var sides := BoxOnPlaneSide(mins, maxs, node.plane);
        StoreBelow(Now(), maxcount, clusters, nodes, rank, mins, maxs, nodenum);
        if sides == 1 {
          nodenum := node.front;
        } else if sides == 2 {
          nodenum := node.back;
        } else {
          BoxLeafnums(nodes, rank, node.front);
          nodenum := node.back;
        }
      }
      assert [-1 - nodenum][..0] == [];
      StoreLeafs(nodenum);
    }
  }

  ghost predicate SignBitsMatch(nodes: seq<Node>) {
    forall i :: 0 <= i < |nodes| ==>
      nodes[i].plane.kind >= 3 ==> nodes[i].plane.signbits == SignBits(nodes[i].plane.normal)
  }

  /** The leaves below a node that the box may touch, from front to back. */
  ghost function BoxLeafs(nodes: seq<Node>, leafs: nat, rank: seq<nat>, mins: Vec, maxs: Vec, num: int)
    : (r: seq<nat>)
    requires IsTree(nodes, leafs, rank) && IsNumber(num, leafs, rank)
    ensures forall i :: 0 <= i < |r| ==> r[i] < leafs
    decreases Rank(num, rank)
  {
    if num < 0 then [-1 - num]
    else
      var sides := SidesOf(mins, maxs, nodes[num].plane);
      (if sides == 2 then [] else BoxLeafs(nodes, leafs, rank, mins, maxs, nodes[num].front))
      + if sides == 1 then [] else BoxLeafs(nodes, leafs, rank, mins, maxs, nodes[num].back)
  }

  /** Storing the leaves below a node is storing those of one child, or of both, the front one first. */
  lemma StoreBelow(l: Listing, room: nat, clusters: seq<int>, nodes: seq<Node>, rank: seq<nat>, mins: Vec, maxs: Vec,
                   num: int)
    requires IsTree(nodes, |clusters|, rank) && 0 <= num < |rank|
    ensures var node, sides := nodes[num], SidesOf(mins, maxs, nodes[num].plane);
            && IsNumber(node.front, |clusters|, rank) && Rank(node.front, rank) < Rank(num, rank)
            && IsNumber(node.back, |clusters|, rank) && Rank(node.back, rank) < Rank(num, rank)
            && var front, back := BoxLeafs(nodes, |clusters|, rank, mins, maxs, node.front),
                                  BoxLeafs(nodes, |clusters|, rank, mins, maxs, node.back);
               StoreAll(l, room, clusters, BoxLeafs(nodes, |clusters|, rank, mins, maxs, num))
               == if sides == 1 then StoreAll(l, room, clusters, front)
                  else if sides == 2 then StoreAll(l, room, clusters, back)
                  else StoreAll(StoreAll(l, room, clusters, front), room, clusters, back)
  {
    var node, sides := nodes[num], SidesOf(mins, maxs, nodes[num].plane);
    assert ChildOf(node.front, num, |clusters|, rank) && ChildOf(node.back, num, |clusters|, rank);
    var front, back := BoxLeafs(nodes, |clusters|, rank, mins, maxs, node.front),
                       BoxLeafs(nodes, |clusters|, rank, mins, maxs, node.back);
    if sides == 1 {
      assert front + [] == front;
    } else if sides == 2 {
      assert [] + back == back;
    } else {
      StoreAllSplit(l, room, clusters, front, back);
    }
  }

  /** The leaf of every point of the half-open box is among them. */
  lemma {:induction false} BoxLeafsCover(nodes: seq<Node>, leafs: nat, rank: seq<nat>, mins: Vec, maxs: Vec, num: int,
                                         p: Vec)
    requires IsTree(nodes, leafs, rank) && IsNumber(num, leafs, rank)
    requires InHalfOpenBox(p, mins, maxs)
    ensures LeafOf(nodes, leafs, rank, num, p) in BoxLeafs(nodes, leafs, rank, mins, maxs, num)
    decreases Rank(num, rank)
  {
    if num >= 0 {
      SidesMean(mins, maxs, nodes[num].plane);
      if Distance(nodes[num].plane, p) < 0.0 {
        BoxLeafsCover(nodes, leafs, rank, mins, maxs, nodes[num].back, p);
      } else {
        BoxLeafsCover(nodes, leafs, rank, mins, maxs, nodes[num].front, p);
      }
    }
  }

  /** BoxLeafnums, from the root: without an overflow, the list holds the leaf of every point of the half-open box. */
  method TouchedLeafs(nodes: seq<Node>, ghost rank: seq<nat>, clusters: seq<int>, mins: Vec, maxs: Vec,
                      list: array<int>, listsize: nat)
    returns (count: nat, lastLeaf: int, ghost overflowed: bool)
    requires IsTree(nodes, |clusters|, rank) && nodes != [] && SignBitsMatch(nodes)
    requires listsize <= list.Length
    modifies list
    ensures count <= listsize
    ensures overflowed <==> |BoxLeafs(nodes, |clusters|, rank, mins, maxs, 0)| > listsize
    ensures !overflowed ==> list[..count] == BoxLeafs(nodes, |clusters|, rank, mins, maxs, 0)
    ensures !overflowed ==> forall p :: InHalfOpenBox(p, mins, maxs) ==>
              LeafOf(nodes, |clusters|, rank, 0, p) in list[..count]
  {
    var ll := new LeafList(mins, maxs, clusters, list, listsize);
    ghost var leafs := BoxLeafs(nodes, |clusters|, rank, mins, maxs, 0);
    ghost var empty := ll.Now();
    ll.BoxLeafnums(nodes, rank, 0);
    StoreAllKeeps(empty, listsize, clusters, leafs);
    assert empty.leafs + leafs == leafs;
    forall p | InHalfOpenBox(p, mins, maxs)
      ensures LeafOf(nodes, |clusters|, rank, 0, p) in leafs
    {
      BoxLeafsCover(nodes, |clusters|, rank, mins, maxs, 0, p);
    }
    return ll.count, ll.lastLeaf, ll.overflowed;
  }
}
