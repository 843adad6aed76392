# Dispute-game tree positions

The fault-dispute game bisects an execution trace over a complete binary tree.
A node of that tree is a `Position`: its depth (the root has depth 0) and its
index at that depth (0 to 2^depth - 1, counted from the left). The file
`op-challenger/game/fault/types/position.go` converts a position to and from
two other numberings and computes the moves of the game:

- the **generalized index**: a leading 1 bit followed by the depth-bit path
  from the root, `1 << depth | indexAtDepth`. `NewPositionFromGIndex` decodes
  it again, using `MSBIndex` (the index of the highest set bit) for the depth;
- the **trace index** for a maximum depth M: the leaf at depth M reached by
  always going right from the node, `indexAtDepth << rd | ((1 << rd) - 1)`
  with `rd = M - depth`;
- the moves: `MoveRight` (next node at the same depth), the private `move`
  (left or right child) and `parent`, `Attack` (the left child) and `Defend`
  (the left child of the parent's right child).

The project has two modules:

- `Bits` (`bits.dfy`): powers of two, the `uint64` range, and Go's `<<`, `>>`,
  `|` and `x & ^m` on natural numbers. `|` and `& ^` are defined bit by bit, so
  the model of each Go expression keeps the source's operator. The lemmas prove
  the facts the source relies on: an OR of operands with disjoint bits is their
  sum (`OrLowBits`), and masking out the highest set bit subtracts it
  (`ClearTopBit`).
- `Positions` (`position.dfy`): the `Position` datatype, the tree invariant
  `Valid` (indexAtDepth < 2^depth), every function of the source file except `Print`, the
  loop of `MSBIndex` as a method, and the lemmas about them.

Values are unbounded naturals. Go computes these on 64-bit `int` and `uint64`.
For the generalized and trace indices, the Go result equals the exact value
whenever the exact value is below 2^64, because two's-complement wrap-around of
the intermediate `int` keeps the bits. `ToGIndexValue` and `TraceIndexValue`
bound the exact values, so they tell when that applies: depth < 64 for the
generalized index, and maxDepth <= 64 for the trace index of a valid node.

The trace index is the rightmost descendant at maxDepth, as the doc comment at
position.go:40-41 says; `TraceIndexGoesRight` proves the code computes it.

## Model

| member | source | states |
|---|---|---|
| `Positions.NewPosition` | op-challenger/game/fault/types/position.go:11-13 | the accessors `Depth` and `IndexAtDepth` (lines 28-34) return the two coordinates it was built from |
| `Positions.NewPositionFromGIndex` | op-challenger/game/fault/types/position.go:15-19 | for x >= 1 the result is a valid node of depth < 64; its depth is the power of two interval x lies in (2^depth <= x < 2^(depth+1)); its index is x minus that top bit |
| `Bits.ClearTopBit` | op-challenger/game/fault/types/position.go:17 | `^(1 << d) & x` equals x - 2^d when d is the highest set bit of x |
| `Positions.FromGIndexOfToGIndex` | op-challenger/game/fault/types/position.go:15-19 | for a valid node of depth < 64, the generalized index lies in [1, 2^64) and decoding it gives the node back |
| `Positions.ToGIndexOfFromGIndex` | op-challenger/game/fault/types/position.go:87-89 | for every uint64 x >= 1, encoding the decoded node gives x back |
| `Positions.ToGIndexValue` | op-challenger/game/fault/types/position.go:87-89 | for a valid node the OR has no overlapping bits: the generalized index is 2^depth + indexAtDepth and lies in [2^depth, 2^(depth+1)) |
| `Bits.OrLowBits` | op-challenger/game/fault/types/position.go:87-89 | `a << k` OR b equals (a << k) + b when b < 2^k |
| `Positions.ToGIndexOrder` | op-challenger/game/fault/types/position.go:87-89 | on valid nodes, one generalized index is smaller than another exactly when its node comes first in breadth-first order |
| `Positions.ToGIndexInjective` | op-challenger/game/fault/types/position.go:87-89 | distinct valid nodes have distinct generalized indices |
| `Positions.IsRootPosition` | op-challenger/game/fault/types/position.go:36-38 | true exactly for the position (0, 0) |
| `Positions.RootPosition` | op-challenger/game/fault/types/position.go:36-38 | a valid node is the root exactly when its depth is 0, and exactly when its generalized index is 1 |
| `Positions.TraceIndexValue` | op-challenger/game/fault/types/position.go:42-47 | for depth <= maxDepth the trace index is (i + 1) * 2^rd - 1, the last of the leaves i * 2^rd .. (i + 1) * 2^rd - 1 under the node; for a valid node it is below 2^maxDepth |
| `Positions.TraceIndexAtMaxDepth` | op-challenger/game/fault/types/position.go:42-47 | at depth == maxDepth the trace index is the index at depth |
| `Positions.TraceIndexOfRightChild` | op-challenger/game/fault/types/position.go:40-47 | going to the right child leaves the trace index unchanged |
| `Positions.TraceIndexGoesRight` | op-challenger/game/fault/types/position.go:40-47 | going right maxDepth - depth times reaches the node (maxDepth, trace index), as the doc comment says |
| `Positions.TraceIndexOfAttack` | op-challenger/game/fault/types/position.go:73-76 | the attack position's trace index is 2^(maxDepth - depth - 1) to the left of the node's |
| `Positions.BoolToInt` | op-challenger/game/fault/types/position.go:57-63 | the result is 0 or 1, and 1 exactly when the argument is true |
| `Positions.MoveChild` | op-challenger/game/fault/types/position.go:49-55 | `move(right)` gives (d + 1, 2i + (right ? 1 : 0)), keeps the tree invariant, maps the generalized index g to 2g or 2g + 1, and its parent is the node |
| `Positions.ParentChild` | op-challenger/game/fault/types/position.go:65-71 | below the root, the node is the child of its parent on the side its low bit names; the parent of a valid node is valid and has half its generalized index |
| `Positions.AttackPosition` | op-challenger/game/fault/types/position.go:73-76 | attack gives (d + 1, 2i) and keeps the tree invariant |
| `Positions.DefendPosition` | op-challenger/game/fault/types/position.go:78-81 | for depth >= 1, defend gives (d + 1, 2 * (i OR 1)), with i OR 1 = 2 * (i / 2) + 1, and keeps the tree invariant |
| `Bits.OrOne` | op-challenger/game/fault/types/position.go:53 | `a OR 1` sets the low bit of a and keeps the others |
| `Positions.DefendRightChild` | op-challenger/game/fault/types/position.go:78-81 | defending a right child (odd index) is the same as attacking it |
| `Positions.DefendLeftChild` | op-challenger/game/fault/types/position.go:78-81 | a valid left child below the root has a right sibling, and defending it attacks that sibling |
| `Positions.ExampleTraceIndex` | op-challenger/game/fault/types/position.go:42-47 | the root's trace index at maxDepth 3 is 7 |
| `Positions.ExampleMSBIndex` | op-challenger/game/fault/types/position.go:91-101 | the highest set bit of 1, 2, 7 and 8 is 0, 1, 2 and 3; MSBIndex returns the same through its `r == Log2(x)` contract |
| `Positions.ExampleDefend` | op-challenger/game/fault/types/position.go:78-81 | defend of (2, 1) is (3, 2) |
| `Positions.MoveRightTimes` | op-challenger/game/fault/types/position.go:21-26 | applying MoveRight k times keeps the depth and adds k to the index |
| `Positions.MoveRightNext` | op-challenger/game/fault/types/position.go:21-26 | MoveRight keeps the depth and the tree invariant and steps to the next generalized index |
| `Positions.Log2` | op-challenger/game/fault/types/position.go:91-101 | for x >= 1 the result r satisfies 2^r <= x < 2^(r+1) |
| `Positions.Log2Unique` | op-challenger/game/fault/types/position.go:91-101 | that interval determines the bit index |
| `Positions.MSBIndex` | op-challenger/game/fault/types/position.go:91-101 | the loop returns Log2(x): 0 for x == 0, otherwise the r with 2^r <= x < 2^(r+1); r < 64 |
| `Bits.ShiftRightStep` | op-challenger/game/fault/types/position.go:97-99 | one more `>> 1` after `>> k` is `>> (k + 1)`, so MSBIndex's counter is the number of shifts done so far |

## Left out

- `Print` (position.go:83-85): it only writes a line to standard output and has no result.
- Go's 64-bit `int` and `uint64`: values are unbounded naturals. The README intro says when the Go result equals the exact value. Overflowing `MoveRight` or `move` results are not modelled.
- Negative coordinates: `NewPosition` takes Go `int`s. The model takes naturals, because every position the code builds from a valid position or a nonzero generalized index has non-negative coordinates, apart from `parent`/`Defend` of the root, excluded below.
- The caller errors the source leaves unguarded are preconditions, not modelled results: `NewPositionFromGIndex(0)` (`requires x >= 1`), `parent` of the root and therefore `Defend` of the root (`requires depth >= 1`), `MoveRight` past the last node at its depth (`requires indexAtDepth + 1 < 2^depth`), and `TraceIndex` with maxDepth < depth, a negative shift that panics in Go (`requires depth <= maxDepth`).
