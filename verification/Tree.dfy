/**
 * The implicit binary tree behind the keystream, for any way of mixing registers: visiting its leaves
 * one after the other with a stack of saved nodes, against going to a numbered leaf from the root.
 */
module Tree {
  import opened Words

  /** Registers, and the index of the node in heap order: the children of i are 2i and 2i+1. */
  datatype Node<R> = Node(regs: R, heap: nat)

  /** How registers change: mixing on entry to a level, then turning left or right. */
  datatype Rules<!R> = Rules(mix: (R, nat) -> R, left: R -> R, right: R -> R)

  /** The node a left turn saves. */
  function Mixed<R>(f: Rules<R>, n: Node<R>): Node<R> {
    Node(f.mix(n.regs, n.heap), n.heap)
  }

  function Left<R>(f: Rules<R>, mixed: Node<R>): Node<R> {
    Node(f.left(mixed.regs), 2 * mixed.heap)
  }

  function Right<R>(f: Rules<R>, mixed: Node<R>): Node<R> {
    Node(f.right(mixed.regs), 2 * mixed.heap + 1)
  }

  /** Leaf k, counted from the left, of the subtree of n with the given number of levels. */
  function Leaf<R>(f: Rules<R>, n: Node<R>, k: nat, levels: nat): Node<R>
    requires k < Pow2(levels)
    decreases levels, n
  {
    if levels == 0 then n
    else if k < Pow2(levels - 1) then Leaf(f, Left(f, Mixed(f, n)), k, levels - 1)
    else Leaf(f, Right(f, Mixed(f, n)), k - Pow2(levels - 1), levels - 1)
  }

  /** The nodes saved on the way to leaf k: one for each left turn, the deepest last. */
  function Saved<R>(f: Rules<R>, n: Node<R>, k: nat, levels: nat): seq<Node<R>>
    requires k < Pow2(levels)
    decreases levels, n
  {
    if levels == 0 then []
    else if k < Pow2(levels - 1) then [Mixed(f, n)] + Saved(f, Left(f, Mixed(f, n)), k, levels - 1)
    else Saved(f, Right(f, Mixed(f, n)), k - Pow2(levels - 1), levels - 1)
  }

  /** The left turns on the way to leaf k are the zero bits of k. */
  function ZeroBits(k: nat, width: nat): nat
    decreases width, k
  {
    if width == 0 then 0 else (if k % 2 == 0 then 1 else 0) + ZeroBits(k / 2, width - 1)
  }

  lemma {:induction false} ZeroBitsTop(k: nat, width: nat)
    requires width > 0 && k < Pow2(width)
    ensures k < Pow2(width - 1) ==> ZeroBits(k, width) == 1 + ZeroBits(k, width - 1)
    ensures k >= Pow2(width - 1) ==> ZeroBits(k, width) == ZeroBits(k - Pow2(width - 1), width - 1)
  {
    if width > 1 {
      ZeroBitsTop(k / 2, width - 1);
      assert k >= Pow2(width - 1) ==> (k - Pow2(width - 1)) / 2 == k / 2 - Pow2(width - 2);
    }
  }

  /** The stack on reaching leaf k is as deep as k has zero bits, so never deeper than the tree. */
  lemma {:induction false} SavedDepth<R>(f: Rules<R>, n: Node<R>, k: nat, levels: nat)
    requires k < Pow2(levels)
    ensures |Saved(f, n, k, levels)| == ZeroBits(k, levels) <= levels
    decreases levels
  {
    if levels > 0 {
      ZeroBitsTop(k, levels);
      if k < Pow2(levels - 1) {
        SavedDepth(f, Left(f, Mixed(f, n)), k, levels - 1);
      } else {
        SavedDepth(f, Right(f, Mixed(f, n)), k - Pow2(levels - 1), levels - 1);
      }
    }
  }

  lemma {:induction false} LastLeafSavesNothing<R>(f: Rules<R>, n: Node<R>, levels: nat)
    ensures Saved(f, n, Pow2(levels) - 1, levels) == []
    decreases levels
  {
    if levels > 0 {
      LastLeafSavesNothing(f, Right(f, Mixed(f, n)), levels - 1);
    }
  }

  /** The heap index of a leaf is its number behind all the inner nodes. */
  lemma {:induction false} LeafHeap<R>(f: Rules<R>, n: Node<R>, k: nat, levels: nat)
    requires k < Pow2(levels)
    ensures Leaf(f, n, k, levels).heap == n.heap * Pow2(levels) + k
    decreases levels
  {
    if levels > 0 {
      var half := Pow2(levels - 1);
      var m := Mixed(f, n);
      if k < half {
        LeafHeap(f, Left(f, m), k, levels - 1);
        Twice(n.heap, half);
      } else {
        LeafHeap(f, Right(f, m), k - half, levels - 1);
        Twice(n.heap, half);
      }
    }
  }

  lemma Twice(h: nat, half: nat)
    ensures h * (2 * half) == 2 * h * half
    ensures (2 * h + 1) * half == 2 * h * half + half
  {
  }

  /**
   * Popping the node saved last and turning right there leads to a subtree of r levels whose leftmost leaf is
   * the next leaf; what the leftmost descent saves completes the next leaf's stack.
   */
  ghost predicate IsNext<R>(f: Rules<R>, n: Node<R>, k: nat, levels: nat, r: nat)
    requires k + 1 < Pow2(levels)
  {
    var s := Saved(f, n, k, levels);
    && s != []
    && var m := Right(f, s[|s| - 1]);
       && Leaf(f, m, 0, r) == Leaf(f, n, k + 1, levels)
       && s[..|s| - 1] + Saved(f, m, 0, r) == Saved(f, n, k + 1, levels)
  }

  lemma NextOnLeft<R>(f: Rules<R>, n: Node<R>, k: nat, levels: nat, r: nat)
    requires levels > 0 && k + 1 < Pow2(levels - 1)
    requires IsNext(f, Left(f, Mixed(f, n)), k, levels - 1, r)
    ensures IsNext(f, n, k, levels, r)
  {
    var left := Left(f, Mixed(f, n));
    var s, s' := Saved(f, n, k, levels), Saved(f, left, k, levels - 1);
    assert s == [Mixed(f, n)] + s';
    assert s[|s| - 1] == s'[|s'| - 1];
    var rest := Saved(f, Right(f, s'[|s'| - 1]), 0, r);
    assert s[..|s| - 1] + rest == [Mixed(f, n)] + (s'[..|s'| - 1] + rest);
  }

  lemma NextAcross<R>(f: Rules<R>, n: Node<R>, k: nat, levels: nat)
    requires levels > 0 && k + 1 == Pow2(levels - 1)
    ensures IsNext(f, n, k, levels, levels - 1)
  {
    LastLeafSavesNothing(f, Left(f, Mixed(f, n)), levels - 1);
    assert Saved(f, n, k, levels) == [Mixed(f, n)];
    var rest := Saved(f, Right(f, Mixed(f, n)), 0, levels - 1);
    assert [Mixed(f, n)][..0] + rest == rest;
  }

  lemma NextOnRight<R>(f: Rules<R>, n: Node<R>, k: nat, levels: nat, r: nat)
    requires levels > 0 && Pow2(levels - 1) <= k && k + 1 < Pow2(levels)
    requires IsNext(f, Right(f, Mixed(f, n)), k - Pow2(levels - 1), levels - 1, r)
    ensures IsNext(f, n, k, levels, r)
  {
    var right, j := Right(f, Mixed(f, n)), k - Pow2(levels - 1);
    assert Saved(f, n, k, levels) == Saved(f, right, j, levels - 1);
    assert Saved(f, n, k + 1, levels) == Saved(f, right, j + 1, levels - 1);
    assert Leaf(f, n, k + 1, levels) == Leaf(f, right, j + 1, levels - 1);
  }

  /** Every leaf but the last has a next one. */
  lemma {:induction false} NextLeaf<R>(f: Rules<R>, n: Node<R>, k: nat, levels: nat) returns (r: nat)
    requires k + 1 < Pow2(levels)
    ensures r < levels && IsNext(f, n, k, levels, r)
    decreases levels
  {
    var half := Pow2(levels - 1);
    if k + 1 < half {
      r := NextLeaf(f, Left(f, Mixed(f, n)), k, levels - 1);
      NextOnLeft(f, n, k, levels, r);
    } else if k + 1 == half {
      r := levels - 1;
      NextAcross(f, n, k, levels);
    } else {
      r := NextLeaf(f, Right(f, Mixed(f, n)), k - half, levels - 1);
      NextOnRight(f, n, k, levels, r);
    }
  }
}
