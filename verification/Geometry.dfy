/** Vectors, planes and boxes over the reals, and the node tree (Utility/Collision/Collision.cpp). */
module Geometry {
  datatype Vec = Vec(x: real, y: real, z: real) {
    function Plus(v: Vec): Vec {
      Vec(x + v.x, y + v.y, z + v.z)
    }

    function Coordinate(axis: nat): real {
      if axis == 0 then x else if axis == 1 then y else z
    }
  }

  const ORIGIN := Vec(0.0, 0.0, 0.0)

  function Dot(a: Vec, b: Vec): real {
    a.x * b.x + a.y * b.y + a.z * b.z
  }

  function Abs(x: real): real {
    if x < 0.0 then -x else x
  }

  /** A plane; kinds 0 to 2 are axial, and bit i of signbits tells whether coordinate i of the normal is negative. */
  datatype Plane = Plane(normal: Vec, dist: real, kind: nat, signbits: nat)

  function SignBits(normal: Vec): nat {
    (if normal.x < 0.0 then 1 else 0) + (if normal.y < 0.0 then 2 else 0) + (if normal.z < 0.0 then 4 else 0)
  }

  /** How far a step leads along a plane's normal, and how far a point is in front of the plane. */
  function Along(plane: Plane, v: Vec): real {
    if plane.kind < 3 then v.Coordinate(plane.kind) else Dot(plane.normal, v)
  }

  function Distance(plane: Plane, p: Vec): real {
    Along(plane, p) - plane.dist
  }

  lemma DotPlus(n: Vec, a: Vec, b: Vec)
    ensures Dot(n, a.Plus(b)) == Dot(n, a) + Dot(n, b)
  {
  }

  lemma AlongPlus(plane: Plane, a: Vec, b: Vec)
    ensures Along(plane, a.Plus(b)) == Along(plane, a) + Along(plane, b)
  {
    DotPlus(plane.normal, a, b);
  }

  /** A node's two children: another node, or -1 - leaf. */
  datatype Node = Node(plane: Plane, front: int, back: int)

  /** Every child is a leaf, or a node of lower rank. */
  ghost predicate IsTree(nodes: seq<Node>, leafs: nat, rank: seq<nat>) {
    && |rank| == |nodes|
    && (forall i :: 0 <= i < |nodes| ==>
          ChildOf(nodes[i].front, i, leafs, rank) && ChildOf(nodes[i].back, i, leafs, rank))
  }

  ghost predicate ChildOf(child: int, i: nat, leafs: nat, rank: seq<nat>) {
    if child < 0 then -1 - child < leafs else child < |rank| && i < |rank| && rank[child] < rank[i]
  }

  ghost predicate IsNumber(num: int, leafs: nat, rank: seq<nat>) {
    if num < 0 then -1 - num < leafs else num < |rank|
  }

  /** The rank of a node; leaves are at the bottom. */
  ghost function Rank(num: int, rank: seq<nat>): nat
  {
    if 0 <= num < |rank| then rank[num] + 1 else 0
  }

  /** The leaf that a point is in, in the part of the tree below a node. */
  ghost function LeafOf(nodes: seq<Node>, leafs: nat, rank: seq<nat>, num: int, p: Vec): (leaf: nat)
    requires IsTree(nodes, leafs, rank) && IsNumber(num, leafs, rank)
    ensures leaf < leafs
    decreases Rank(num, rank)
  {
    if num < 0 then -1 - num
    else
      var child := if Distance(nodes[num].plane, p) < 0.0 then nodes[num].back else nodes[num].front;
      LeafOf(nodes, leafs, rank, child, p)
  }

  /** PointLeafnum_r. */
  method PointLeafnum(nodes: seq<Node>, ghost leafs: nat, ghost rank: seq<nat>, p: Vec, start: int) returns (leaf: int)
    requires IsTree(nodes, leafs, rank) && IsNumber(start, leafs, rank)
    ensures leaf == LeafOf(nodes, leafs, rank, start, p)
  {
    var num := start;
    while num >= 0
      invariant IsNumber(num, leafs, rank)
      invariant LeafOf(nodes, leafs, rank, num, p) == LeafOf(nodes, leafs, rank, start, p)
      decreases Rank(num, rank)
    {
      var plane := nodes[num].plane;
      var d;
      if plane.kind < 3 {
        d := p.Coordinate(plane.kind) - plane.dist;
      } else {
        d := Dot(plane.normal, p) - plane.dist;
      }
      num := if d < 0.0 then nodes[num].back else nodes[num].front;
    }
    return -1 - num;
  }
}
