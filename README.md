# Escaping locals: a Dafny model

This project models the conservative escape analysis of the MIR borrow checker
(`escaping_locals.rs`). The analysis walks a function body's assignments. For each
tracked assignment it unions the destination local with the locals the right-hand side
moves or borrows from. The unions go into a disjoint-set table keyed by local index.
It then reports every local other than the return place (local 0) that ended up in
the return place's set, in ascending order.

Modules:

- `Mir` (`mir.dfy`): the slice of MIR the walk reads. It holds places with their
  projection chains, operands, right-hand sides, statements, basic blocks, and a body
  with its number of locals. `FlatMap` and its lemmas are the one sequence tool the
  specifications are built on.
- `Partition` (`partition.dfy`): what a disjoint-set table means. Two keys are
  `Connected` when a chain of recorded unions, each usable in either direction, leads
  from one to the other. This is the equivalence closure of the unioned pairs. Its
  lemmas describe the closure after one more union (`JoinedBy`).
- `UnionFind` (`union_find.dfy`): the table the visitor owns. It is a class with
  `NewKey`, `Union` and `Unioned`. Its `parent` sequence grows one singleton key at a
  time and is kept fully compressed. A ghost record of every unioned pair ties it to
  `Partition`.
- `EscapingLocals` (`escaping_locals.dfy`): the resolution functions and the
  `AssignedLocal` key conversion. It also holds the visitor class with `VisitMir`,
  `VisitAssign` and `UnionLocalsIfNeeded`, and the `FindEscapingLocals` query.
  - The unions each piece of the walk records are also given as values:
    `UnionIfNeeded`, `AggregateUnions`, `AssignUnions`, `StatementsUnions` and
    `BodyUnions`.
  - Each visitor method is proved to append exactly those unions.
  - `TrackedSources` is an independent, set-based description of which locals an
    assignment forwards. `AssignUnionsMembers` connects it to `AssignUnions`.
- `EscapingProperties` (`escaping_properties.dfy`): consequences for the query's
  result, plus worked examples on small bodies.
  - The result is unique, and statement order does not change it.
  - Locals that are connected escape together.
  - A body whose unions never touch local 0 has an empty result.
  - A body whose assignments all write through statics or promoted constants has an
    empty result.
  - These results hold for bodies the query accepts: the number of locals fits in
    `u32` and every union the walk would make names a declared local.

Source paths below are relative to the repository root.

## Model

| member | source | states |
|---|---|---|
| EscapingLocals.AssignedLocal.From | src/librustc_mir/borrow_check/nll/type_check/escaping_locals.rs:78-84 | converting a local below `u32::MAX` gives the key with the same index, with no truncation; the assert is a precondition |
| EscapingLocals.FindLocalInPlaceRoot | src/librustc_mir/borrow_check/nll/type_check/escaping_locals.rs:106-112 | a place resolves to the local at the root of its projection chain, and to none when that root is a static or a promoted constant |
| EscapingLocals.FindLocalThroughProjections | src/librustc_mir/borrow_check/nll/type_check/escaping_locals.rs:106-112 | for any root and any number of projection elements, the projected place resolves as its root does: `Some(l)` for `Local(l)`, otherwise `None` |
| Mir.DecomposeProjected | src/librustc_mir/borrow_check/nll/type_check/escaping_locals.rs:106-112 | splitting a projection chain back into root and elements inverts building it, which is the descent `find_local_in_place` performs |
| EscapingLocals.FindLocalInOperand | src/librustc_mir/borrow_check/nll/type_check/escaping_locals.rs:115-122 | an operand resolves exactly when it is a `Move` of a place that resolves, and then to that place's local; copies and constants never resolve |
| EscapingLocals.GatherAssignedLocalsVisitor.constructor | src/librustc_mir/borrow_check/nll/type_check/escaping_locals.rs:86-91 | a new visitor owns a fresh, empty table with no keys and no unions |
| EscapingLocals.GatherAssignedLocalsVisitor.UnionLocalsIfNeeded | src/librustc_mir/borrow_check/nll/type_check/escaping_locals.rs:93-102 | if either side is missing or both are the same local, the table is unchanged; otherwise the two locals end up in one set and every other pair is together iff it was before or the merge joined it |
| EscapingLocals.AssignUnionsMembers | src/librustc_mir/borrow_check/nll/type_check/escaping_locals.rs:141-163 | an assignment records the union (x, y) iff the destination resolves to x, y differs from x, and y is among the tracked sources: the resolved `Use` or `Ref` source, an `Unsize` cast's source, or an aggregate's moved operands; other casts and rvalue forms record nothing |
| EscapingLocals.AggregateUnionsMembers | src/librustc_mir/borrow_check/nll/type_check/escaping_locals.rs:156-160 | an aggregate records (x, y) iff the destination is x and some operand, wherever it sits, resolves to a different y; unresolved operands do not affect the others |
| EscapingLocals.AssignedLocalJoinsSources | src/librustc_mir/borrow_check/nll/type_check/escaping_locals.rs:141-163 | once an assignment's unions are recorded, its resolved destination shares a set with every tracked source |
| EscapingLocals.GatherAssignedLocalsVisitor.VisitAssign | src/librustc_mir/borrow_check/nll/type_check/escaping_locals.rs:134-166 | appends exactly the assignment's unions to the table, in operand order for aggregates; when none are recorded the table is unchanged; afterwards the resolved destination shares a set with each tracked source |
| EscapingLocals.GatherAssignedLocalsVisitor.VisitBasicBlockData | src/librustc_mir/borrow_check/nll/type_check/escaping_locals.rs:131 | visiting one block appends the unions of its statements in stored order and allocates no key |
| EscapingLocals.GatherAssignedLocalsVisitor.VisitMir | src/librustc_mir/borrow_check/nll/type_check/escaping_locals.rs:125-132 | allocates exactly one key per declared local before any union, then records exactly the body's unions in block and statement order |
| EscapingLocals.StatementsUnionsMembers | src/librustc_mir/borrow_check/nll/type_check/escaping_locals.rs:131 | a pair is recorded by a statement list iff some statement of the list records it |
| EscapingLocals.StatementsUnionsAppend | src/librustc_mir/borrow_check/nll/type_check/escaping_locals.rs:131 | the walk's unions over consecutive statement lists are the concatenation of each list's unions |
| EscapingLocals.FindEscapingLocals | src/librustc_mir/borrow_check/nll/type_check/escaping_locals.rs:27-50 | the result never holds local 0, is strictly ascending, and holds s iff 0 < s < number of locals and s is in the return place's set after the walk |
| UnionFind.UnificationTable.constructor | src/librustc_mir/borrow_check/nll/type_check/escaping_locals.rs:89 | a new table has no keys and no unions |
| UnionFind.UnificationTable.NewKey | src/librustc_mir/borrow_check/nll/type_check/escaping_locals.rs:127-129 | allocates the next key as a singleton: its index is the old length cast to 32 bits, and no key other than itself shares its set |
| UnionFind.UnificationTable.Union | src/librustc_mir/borrow_check/nll/type_check/escaping_locals.rs:97-98 | afterwards a and b are in one set; i and j are together iff they were, or one was with a and the other with b |
| UnionFind.UnificationTable.Unioned | src/librustc_mir/borrow_check/nll/type_check/escaping_locals.rs:41-43 | true exactly when the two keys are in one set of the closure of the unions so far |
| UnionFind.RepresentsAfterNewKey | src/librustc_mir/borrow_check/nll/type_check/escaping_locals.rs:128 | appending a self-rooted key keeps the table an exact representation of the partition |
| UnionFind.RepresentsAfterUnion | src/librustc_mir/borrow_check/nll/type_check/escaping_locals.rs:97-98 | re-pointing b's set at a's root represents the closure extended by (a, b); when they already share a root nothing moves |
| Partition.ConnectedAfterUnion | src/librustc_mir/borrow_check/nll/type_check/escaping_locals.rs:97-98 | one more union merges exactly the two sets involved and leaves every other set as it was |
| Partition.ConnectedEmpty | src/librustc_mir/borrow_check/nll/type_check/escaping_locals.rs:127-129 | before any union every key is alone in its set |
| Partition.ConnectedDependsOnMembers | src/librustc_mir/borrow_check/nll/type_check/escaping_locals.rs:131 | the partition depends only on which pairs were unioned, not on their order or repetition |
| EscapingProperties.EscapingListUnique | src/librustc_mir/borrow_check/nll/type_check/escaping_locals.rs:27-50 | a body admits exactly one list satisfying the query's contract |
| EscapingProperties.EscapingIndependentOfOrder | src/librustc_mir/borrow_check/nll/type_check/escaping_locals.rs:27-50 | two bodies with the same number of locals and the same statements in any block order and statement order give the same result |
| EscapingProperties.EscapeTogether | src/librustc_mir/borrow_check/nll/type_check/escaping_locals.rs:27-50 | two non-return locals joined by a chain of unions are both in the result or both out |
| EscapingProperties.NothingEscapesWithoutReturnUnion | src/librustc_mir/borrow_check/nll/type_check/escaping_locals.rs:27-50 | when no recorded union mentions local 0, the result is empty |
| EscapingProperties.ReturnPlaceOnlyEscapesNothing | src/librustc_mir/borrow_check/nll/type_check/escaping_locals.rs:35-38 | a body declaring only the return place has an empty result, whatever its blocks, provided the query accepts the body (every union it would make names a declared local) |
| EscapingProperties.OpaqueDestinationsEscapeNothing | src/librustc_mir/borrow_check/nll/type_check/escaping_locals.rs:93-112 | when every assignment writes through a place rooted in a static or a promoted constant, the destination never resolves, no union is recorded and the result is empty |
| EscapingProperties.MoveChainUnions | src/librustc_mir/borrow_check/nll/type_check/escaping_locals.rs:146 | `_0 = move _1` then, in a second block, `_1 = move _2; _2 = move _3` records (0,1), (1,2), (2,3) in that order |
| EscapingProperties.MoveChainEscapes | src/librustc_mir/borrow_check/nll/type_check/escaping_locals.rs:27-50 | in that chain, locals 1, 2 and 3 all escape, across blocks and through intermediate locals |
| EscapingProperties.CopyDoesNotEscape | src/librustc_mir/borrow_check/nll/type_check/escaping_locals.rs:115-122 | `_0 = copy _1` makes nothing escape |
| EscapingProperties.MixedTupleOperandUnions | src/librustc_mir/borrow_check/nll/type_check/escaping_locals.rs:156-160 | the tuple `(copy _1, const, move _2, move (*_3).0)` assigned to `_0` records (0,2) and (0,3) only |
| EscapingProperties.MixedTupleEscapes | src/librustc_mir/borrow_check/nll/type_check/escaping_locals.rs:156-160 | in that tuple, locals 2 and 3 escape (3 through a deref and field projection) and local 1 does not |
| EscapingProperties.NonUnsizeCastDoesNotEscape | src/librustc_mir/borrow_check/nll/type_check/escaping_locals.rs:151-154 | a cast of any kind other than `Unsize` makes nothing escape |
| EscapingProperties.UnsizeThenBorrowEscapes | src/librustc_mir/borrow_check/nll/type_check/escaping_locals.rs:147-152 | an unsizing cast of `move _1` and a shared borrow of `_2` into `_0` make locals 1 and 2 escape |

## Left out

- The disjoint-set library behind the table (`rustc_data_structures::unify`) is not
  part of this model. It is replaced by a fully compressed quick-find table with the
  same observable contract: `new_key`, `union`, `unioned` and the equivalence closure
  of the unions so far. Union by rank, path compression, the key's `tag()` string, the
  `()` value payload and the undo log are not modelled.
- The table's `union` and `unioned` on keys that were never allocated panic in the
  library. The model makes "every key is allocated" a precondition. For
  `FindEscapingLocals` this is `UnionsInRange`: every local the walk unions is declared
  and below `u32::MAX`. It also requires `localCount <= u32::MAX`, which is what the
  per-local conversion's assert demands.
- `UnificationTable.NewKey`: the cast of the table length to `u32` is modelled as
  reduction modulo 2^32. Its results are never used by the walk, so no precondition
  is put on it.
- Terminators, types, regions, spans, source locations, lifetimes, `Static` contents,
  promoted bodies and the kinds of `BinaryOp`, `NullaryOp` and `UnaryOp` are left out.
  Only assignments are visited, and the rvalue forms the analysis ignores are kept
  only so that they can be shown to record nothing.
- Two parts of the `Visitor` trait are modelled only in part: the `super_mir` and
  `super_assign` dispatch, and the `BasicBlock`/`Location` arguments.
  - `VisitMir` walks blocks in index order and statements in stored order, which is
    the order `super_mir` visits assignments in.
  - `super_assign` descends into the place and rvalue but does nothing this analysis
    observes, so it is not modelled.
- Local indices are unbounded naturals; the `usize` index type is not modelled beyond
  the `u32::MAX` bound on keys.
- How MIR is built and how region inference consumes the result are outside this file
  and are not modelled.
