/**
 Positions in the bisection game tree.

 A node of the complete binary tree is a pair (depth, indexAtDepth). The same
 node has two other names: its generalized index, a 1 bit followed by the
 depth-bit path from the root, and, for a fixed maximum depth, its trace index,
 the leaf reached by always going right from it. The tree moves (child, parent,
 next sibling, attack and defend) are coordinate arithmetic.
 */
module Positions {
  import opened Bits

  /** A node: its distance from the root and its rank, from the left, among the nodes at that depth. */
  datatype Position = Position(depth: nat, indexAtDepth: nat)

  /** The tree invariant: depth d has 2^d nodes. */
  predicate Valid(p: Position) {
    p.indexAtDepth < Pow2(p.depth)
  }

  /** Breadth-first order: shallower nodes first, left to right within a depth. */
  predicate Before(p: Position, q: Position) {
    p.depth < q.depth || (p.depth == q.depth && p.indexAtDepth < q.indexAtDepth)
  }

  // ---------------------------------------------------------------------------
  // Construction and accessors

  function NewPosition(depth: nat, indexAtDepth: nat): (p: Position)
    ensures Depth(p) == depth && IndexAtDepth(p) == indexAtDepth
  {
    Position(depth, indexAtDepth)
  }

  function Depth(p: Position): nat {
    p.depth
  }

  function IndexAtDepth(p: Position): nat {
    p.indexAtDepth
  }

  /**
   Decodes a generalized index: the depth is the index of the highest set bit
   and the index at depth is what remains once that bit is cleared. The result
   is a valid position whose depth fits below 64.
   */
  function NewPositionFromGIndex(x: Uint64): (p: Position)
    requires x >= 1
    ensures Valid(p) && p.depth < 64
    ensures Pow2(p.depth) <= x < Pow2(p.depth + 1)
    ensures p.indexAtDepth == x - Pow2(p.depth)
  {
    var depth := Log2(x);
    Log2Below(x, 64);
    ClearTopBit(x, depth);
    NewPosition(depth, AndNot(x, ShiftLeft(1, depth)))
  }

  // ---------------------------------------------------------------------------
  // Views

  /** `1 << depth | indexAtDepth`. */
  function ToGIndex(p: Position): nat {
    Or(ShiftLeft(1, p.depth), p.indexAtDepth)
  }

  function IsRootPosition(p: Position): (r: bool)
    ensures r <==> p == Position(0, 0)
  {
    p.depth == 0 && p.indexAtDepth == 0
  }

  /** `indexAtDepth << rd | ((1 << rd) - 1)` with rd = maxDepth - depth. */
  function TraceIndex(p: Position, maxDepth: nat): nat
    requires p.depth <= maxDepth
  {
    var rd := maxDepth - p.depth;
    Or(ShiftLeft(p.indexAtDepth, rd), ShiftLeft(1, rd) - 1)
  }

  // ---------------------------------------------------------------------------
  // Moves

  /** The next node to the right at the same depth; the source leaves the upper bound unchecked. */
  function MoveRight(p: Position): Position
    requires p.indexAtDepth + 1 < Pow2(p.depth)
  {
    Position(p.depth, p.indexAtDepth + 1)
  }

  function BoolToInt(b: bool): (n: nat)
    ensures n <= 1 && (n == 1 <==> b)
  {
    if b then 1 else 0
  }

  /** The left (right == false) or right child. */
  function Move(p: Position, right: bool): Position {
    Position(p.depth + 1, Or(ShiftLeft(p.indexAtDepth, 1), BoolToInt(right)))
  }

  /** The parent; the source does not guard the root, which would give depth -1. */
  function Parent(p: Position): Position
    requires p.depth >= 1
  {
    Position(p.depth - 1, ShiftRight(p.indexAtDepth, 1))
  }

  function Attack(p: Position): Position {
    Move(p, false)
  }

  function Defend(p: Position): Position
    requires p.depth >= 1
  {
    Move(Move(Parent(p), true), false)
  }

  // ---------------------------------------------------------------------------
  // MSBIndex

  /** Index of the highest set bit of x, and 0 for x == 0 as MSBIndex returns. */
  function Log2(x: nat): (r: nat)
    ensures x >= 1 ==> Pow2(r) <= x < Pow2(r + 1)
  {
    if x <= 1 then 0 else 1 + Log2(x / 2)
  }

  /** The bit index is determined by the power-of-two interval x lies in. */
  lemma Log2Unique(x: nat, k: nat)
    requires Pow2(k) <= x < Pow2(k + 1)
    ensures Log2(x) == k
  {
    var r := Log2(x);
    if r < k {
      Pow2Monotone(r + 1, k);
    } else if r > k {
      Pow2Monotone(k + 1, r);
    }
  }

  lemma Log2Below(x: nat, n: nat)
    requires 1 <= x < Pow2(n)
    ensures Log2(x) < n
  {
    if Log2(x) >= n {
      Pow2Monotone(n, Log2(x));
    }
  }

  /** Counts the right shifts that bring x to zero, then steps back by one. */
  method MSBIndex(x: Uint64) returns (r: nat)
    ensures r == Log2(x) && r < 64
    ensures x >= 1 ==> Pow2(r) <= x < Pow2(r + 1)
  {
    if x == 0 {
      return 0;
    }
    var y: nat := x;
    var out: nat := 0;
    while y != 0
      invariant y == ShiftRight(x, out)
      invariant y != 0 ==> out + Log2(y) == Log2(x)
      invariant y == 0 ==> out == Log2(x) + 1
      decreases y
    {
      ShiftRightStep(x, out);
      y := y / 2;
      out := out + 1;
    }
    Log2Below(x, 64);
    return out - 1;
  }

  // ---------------------------------------------------------------------------
  // Generalized index

  /**
   The OR in ToGIndex never overlaps, so the generalized index of a valid
   node is 2^depth + indexAtDepth, between 2^depth and 2^(depth+1).
   */
  lemma ToGIndexValue(p: Position)
    requires Valid(p)
    ensures ToGIndex(p) == Pow2(p.depth) + p.indexAtDepth
    ensures Pow2(p.depth) <= ToGIndex(p) < Pow2(p.depth + 1)
  {
    OrLowBits(1, p.depth, p.indexAtDepth);
  }

  /** Decoding the generalized index of a valid node of depth below 64 gives the node back. */
  lemma FromGIndexOfToGIndex(p: Position)
    requires Valid(p) && p.depth < 64
    ensures 1 <= ToGIndex(p) < Pow2(64)
    ensures NewPositionFromGIndex(ToGIndex(p)) == p
  {
    ToGIndexValue(p);
    Pow2Monotone(p.depth + 1, 64);
    Log2Unique(ToGIndex(p), p.depth);
  }

  /** Encoding the node decoded from a nonzero uint64 gives the same integer back. */
  lemma ToGIndexOfFromGIndex(x: Uint64)
    requires x >= 1
    ensures ToGIndex(NewPositionFromGIndex(x)) == x
  {
    ToGIndexValue(NewPositionFromGIndex(x));
  }

  /** Generalized indices list the valid nodes in breadth-first order. */
  lemma ToGIndexOrder(p: Position, q: Position)
    requires Valid(p) && Valid(q)
    ensures ToGIndex(p) < ToGIndex(q) <==> Before(p, q)
  {
    ToGIndexValue(p);
    ToGIndexValue(q);
    if p.depth < q.depth {
      Pow2Monotone(p.depth + 1, q.depth);
    } else if q.depth < p.depth {
      Pow2Monotone(q.depth + 1, p.depth);
    }
  }

  /** Distinct valid nodes have distinct generalized indices. */
  lemma ToGIndexInjective(p: Position, q: Position)
    requires Valid(p) && Valid(q) && ToGIndex(p) == ToGIndex(q)
    ensures p == q
  {
    ToGIndexOrder(p, q);
    ToGIndexOrder(q, p);
  }

  /** The root is the only valid node of depth 0, and its generalized index is 1. */
  lemma RootPosition(p: Position)
    requires Valid(p)
    ensures IsRootPosition(p) <==> p.depth == 0
    ensures IsRootPosition(p) <==> ToGIndex(p) == 1
  {
    ToGIndexValue(p);
    if p.depth > 0 {
      Pow2Monotone(1, p.depth);
    }
  }

  // ---------------------------------------------------------------------------
  // Moves

  /**
   A move goes one level down to index 2i or 2i + 1, keeps the tree
   invariant, doubles the generalized index (plus one to the right), and the
   parent of the child is the node itself.
   */
  lemma MoveChild(p: Position, right: bool)
    ensures Move(p, right) == Position(p.depth + 1, 2 * p.indexAtDepth + BoolToInt(right))
    ensures Valid(p) ==> Valid(Move(p, right))
    ensures Valid(p) ==> ToGIndex(Move(p, right)) == 2 * ToGIndex(p) + BoolToInt(right)
    ensures Parent(Move(p, right)) == p
  {
    OrLowBits(p.indexAtDepth, 1, BoolToInt(right));
    var c := Move(p, right);
    ShiftRightOne(c.indexAtDepth);
    if Valid(p) {
      ToGIndexValue(p);
      ToGIndexValue(c);
    }
  }

  /**
   Every node below the root is the child of its parent on the side its low
   bit names; the parent of a valid node is valid and has half its
   generalized index.
   */
  lemma ParentChild(p: Position)
    requires p.depth >= 1
    ensures Move(Parent(p), p.indexAtDepth % 2 == 1) == p
    ensures Valid(p) ==> Valid(Parent(p))
    ensures Valid(p) ==> ToGIndex(Parent(p)) == ToGIndex(p) / 2
  {
    var q := Parent(p);
    ShiftRightOne(p.indexAtDepth);
    MoveChild(q, p.indexAtDepth % 2 == 1);
    if Valid(p) {
      Pow2Even(p.depth);
      ToGIndexValue(p);
      ToGIndexValue(q);
    }
  }

  /** Attack is the left child: (d + 1, 2i), valid when the node is. */
  lemma AttackPosition(p: Position)
    ensures Attack(p) == Position(p.depth + 1, 2 * p.indexAtDepth)
    ensures Valid(p) ==> Valid(Attack(p))
  {
    MoveChild(p, false);
  }

  /**
   Defend is the left child of the right child of the parent:
   (d + 1, 2 * (i | 1)), valid when the node is.
   */
  lemma DefendPosition(p: Position)
    requires p.depth >= 1
    ensures Defend(p) == Position(p.depth + 1, 2 * Or(p.indexAtDepth, 1))
    ensures Or(p.indexAtDepth, 1) == 2 * (p.indexAtDepth / 2) + 1
    ensures Valid(p) ==> Valid(Defend(p))
  {
    var q := Parent(p);
    ShiftRightOne(p.indexAtDepth);
    MoveChild(q, true);
    MoveChild(Move(q, true), false);
    OrOne(p.indexAtDepth);
    if Valid(p) {
      ParentChild(p);
    }
  }

  /** Defending a right child is attacking it. */
  lemma DefendRightChild(p: Position)
    requires p.depth >= 1 && p.indexAtDepth % 2 == 1
    ensures Defend(p) == Attack(p)
  {
    DefendPosition(p);
    AttackPosition(p);
  }

  /** Defending a left child attacks its right sibling. */
  lemma DefendLeftChild(p: Position)
    requires Valid(p) && p.depth >= 1 && p.indexAtDepth % 2 == 0
    ensures p.indexAtDepth + 1 < Pow2(p.depth)
    ensures Defend(p) == Attack(MoveRight(p))
  {
    Pow2Even(p.depth);
    DefendPosition(p);
    AttackPosition(MoveRight(p));
  }

  /** MoveRight applied k times. */
  function MoveRightTimes(p: Position, k: nat): (q: Position)
    requires p.indexAtDepth + k < Pow2(p.depth)
    ensures q == Position(p.depth, p.indexAtDepth + k)
  {
    if k == 0 then p else MoveRight(MoveRightTimes(p, k - 1))
  }

  /** MoveRight steps to the next generalized index and keeps the node valid. */
  lemma MoveRightNext(p: Position)
    requires p.indexAtDepth + 1 < Pow2(p.depth)
    ensures Valid(MoveRight(p)) && Depth(MoveRight(p)) == Depth(p)
    ensures ToGIndex(MoveRight(p)) == ToGIndex(p) + 1
  {
    ToGIndexValue(p);
    ToGIndexValue(MoveRight(p));
  }

  // ---------------------------------------------------------------------------
  // Trace index

  /**
   The trace index is the last leaf, at maxDepth, of the node's subtree: the
   subtree's leaves are i * 2^rd up to (i + 1) * 2^rd - 1. For a valid node it
   is below 2^maxDepth, so it fits a uint64 when maxDepth <= 64.
   */
  lemma TraceIndexValue(p: Position, maxDepth: nat)
    requires p.depth <= maxDepth
    ensures TraceIndex(p, maxDepth) == (p.indexAtDepth + 1) * Pow2(maxDepth - p.depth) - 1
    ensures p.indexAtDepth * Pow2(maxDepth - p.depth) <= TraceIndex(p, maxDepth)
    ensures Valid(p) ==> TraceIndex(p, maxDepth) < Pow2(maxDepth)
  {
    var i, rd := p.indexAtDepth, maxDepth - p.depth;
    var leaves := Pow2(rd);
    OrLowBits(i, rd, leaves - 1);
    assert TraceIndex(p, maxDepth) == i * leaves + leaves - 1;
    SuccTimes(i, leaves);
    if Valid(p) {
      Pow2Add(p.depth, rd);
      MulMonotone(i + 1, Pow2(p.depth), leaves);
    }
  }

  /** At the maximum depth the trace index is the index at depth. */
  lemma TraceIndexAtMaxDepth(p: Position)
    ensures TraceIndex(p, p.depth) == p.indexAtDepth
  {
    TraceIndexValue(p, p.depth);
  }

  /** Going right does not change the trace index. */
  lemma TraceIndexOfRightChild(p: Position, maxDepth: nat)
    requires p.depth < maxDepth
    ensures TraceIndex(Move(p, true), maxDepth) == TraceIndex(p, maxDepth)
  {
    var i, rd := p.indexAtDepth, maxDepth - p.depth;
    var half := Pow2(rd - 1);
    MoveChild(p, true);
    TraceIndexValue(p, maxDepth);
    TraceIndexValue(Move(p, true), maxDepth);
    assert TraceIndex(Move(p, true), maxDepth) == (2 * i + 2) * half - 1;
    assert Pow2(rd) == 2 * half;
    DoubleFactor(i + 1, half);
  }

  /** Attacking moves the trace index left by half the node's leaf span. */
  lemma TraceIndexOfAttack(p: Position, maxDepth: nat)
    requires p.depth < maxDepth
    ensures TraceIndex(Attack(p), maxDepth) + Pow2(maxDepth - p.depth - 1) == TraceIndex(p, maxDepth)
  {
    var i, rd := p.indexAtDepth, maxDepth - p.depth;
    var half := Pow2(rd - 1);
    AttackPosition(p);
    TraceIndexValue(p, maxDepth);
    TraceIndexValue(Attack(p), maxDepth);
    assert TraceIndex(Attack(p), maxDepth) == (2 * i + 1) * half - 1;
    assert Pow2(rd) == 2 * half;
    DoubleFactor(i + 1, half);
    SuccTimes(2 * i + 1, half);
  }

  /** The node reached by going right n times. */
  function RightmostDescendant(p: Position, n: nat): (q: Position)
    ensures q.depth == p.depth + n
    decreases n
  {
    if n == 0 then p else RightmostDescendant(Move(p, true), n - 1)
  }

  /** The trace index is the index reached by going right down to maxDepth. */
  lemma {:induction false} TraceIndexGoesRight(p: Position, maxDepth: nat)
    requires p.depth <= maxDepth
    ensures RightmostDescendant(p, maxDepth - p.depth) == Position(maxDepth, TraceIndex(p, maxDepth))
    decreases maxDepth - p.depth
  {
    if p.depth == maxDepth {
      TraceIndexAtMaxDepth(p);
    } else {
      TraceIndexGoesRight(Move(p, true), maxDepth);
      TraceIndexOfRightChild(p, maxDepth);
    }
  }

  /** Example value: the root's trace index at maxDepth 3 is 0b111. */
  lemma ExampleTraceIndex()
    ensures TraceIndex(Position(0, 0), 3) == 7
  {
    TraceIndexValue(Position(0, 0), 3);
  }

  /**
   Example values of the highest-bit index; they carry over to MSBIndex
   through its `ensures r == Log2(x)`.
   */
  lemma ExampleMSBIndex()
    ensures Log2(1) == 0 && Log2(2) == 1 && Log2(7) == 2 && Log2(8) == 3
  {
  }

  /** Example value: defending (2, 1), a right child, gives its left child (3, 2). */
  lemma ExampleDefend()
    ensures Defend(Position(2, 1)) == Position(3, 2)
  {
    DefendRightChild(Position(2, 1));
    AttackPosition(Position(2, 1));
  }
}
