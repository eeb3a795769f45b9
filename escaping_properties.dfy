/** What the escape query's result is, stated over bodies: the list is determined by
    the body alone, does not depend on the order in which assignments are visited,
    and behaves as expected on small bodies (a chain of moves, a copy, an aggregate,
    casts, a body with only the return place). */
module EscapingProperties {
  import opened Mir
  import opened Partition
  import opened EscapingLocals

  /** `mir` is a body FindEscapingLocals accepts and `escaping` is a result it may
      return for it. */
  ghost predicate IsEscapingList(mir: Body, escaping: seq<Local>)
  {
    && mir.localCount <= U32_MAX
    && UnionsInRange(mir)
    && 0 !in escaping
    && StrictlyIncreasing(escaping)
    && forall s :: s in escaping <==> 0 < s < mir.localCount && Connected(BodyUnions(mir), 0, s)
  }

  /** Two strictly increasing lists with the same members are the same list. */
  lemma {:induction false} IncreasingUnique(xs: seq<Local>, ys: seq<Local>)
    requires StrictlyIncreasing(xs) && StrictlyIncreasing(ys)
    requires forall v :: v in xs <==> v in ys
    ensures xs == ys
  {
    if xs != [] {
      assert xs[0] in xs;
    }
    if ys != [] {
      assert ys[0] in ys;
    }
    if xs != [] && ys != [] {
      assert xs[0] == ys[0];
      forall v
        ensures v in xs[1..] <==> v in ys[1..]
      {
        if v in xs[1..] {
          assert v in ys && v != ys[0];
        }
        if v in ys[1..] {
          assert v in xs && v != xs[0];
        }
      }
      IncreasingUnique(xs[1..], ys[1..]);
      assert xs == [xs[0]] + xs[1..] && ys == [ys[0]] + ys[1..];
    }
  }

  /** The query is deterministic: a body admits exactly one escaping list. */
  lemma EscapingListUnique(mir: Body, e1: seq<Local>, e2: seq<Local>)
    requires IsEscapingList(mir, e1) && IsEscapingList(mir, e2)
    ensures e1 == e2
  {
    IncreasingUnique(e1, e2);
  }

  /** Reordering the statements, within or across blocks, leaves the result unchanged:
      only the multiset of statements and the number of locals matter. */
  lemma EscapingIndependentOfOrder(m1: Body, m2: Body, e1: seq<Local>, e2: seq<Local>)
    requires m1.localCount == m2.localCount
    requires multiset(AllStatements(m1.basicBlocks)) == multiset(AllStatements(m2.basicBlocks))
    requires IsEscapingList(m1, e1) && IsEscapingList(m2, e2)
    ensures e1 == e2
  {
    var s1, s2 := AllStatements(m1.basicBlocks), AllStatements(m2.basicBlocks);
    forall p
      ensures p in BodyUnions(m1) <==> p in BodyUnions(m2)
    {
      StatementsUnionsMembers(s1, p);
      StatementsUnionsMembers(s2, p);
      forall st
        ensures st in s1 <==> st in s2
      {
        assert st in s1 <==> st in multiset(s1);
        assert st in s2 <==> st in multiset(s2);
      }
    }
    forall s
      ensures Connected(BodyUnions(m1), 0, s) <==> Connected(BodyUnions(m2), 0, s)
    {
      ConnectedDependsOnMembers(BodyUnions(m1), BodyUnions(m2), 0, s);
    }
    IncreasingUnique(e1, e2);
  }

  /** Locals unioned with each other, directly or through a chain, escape together. */
  lemma EscapeTogether(mir: Body, escaping: seq<Local>, x: Local, y: Local)
    requires IsEscapingList(mir, escaping)
    requires 0 < x < mir.localCount && 0 < y < mir.localCount
    requires Connected(BodyUnions(mir), x, y)
    ensures x in escaping <==> y in escaping
  {
    var pairs := BodyUnions(mir);
    if x in escaping {
      ConnectedTransitive(pairs, 0, x, y);
    }
    if y in escaping {
      ConnectedSymmetric(pairs, x, y);
      ConnectedTransitive(pairs, 0, y, x);
    }
  }

  /** When no recorded union involves the return place, nothing escapes. */
  lemma NothingEscapesWithoutReturnUnion(mir: Body, escaping: seq<Local>)
    requires IsEscapingList(mir, escaping)
    requires forall p :: p in BodyUnions(mir) ==> p.0 != 0 && p.1 != 0
    ensures escaping == []
  {
    if escaping != [] {
      var s := escaping[0];
      assert Connected(BodyUnions(mir), 0, s);
      ConnectedSymmetric(BodyUnions(mir), 0, s);
      ConnectedUntouched(BodyUnions(mir), s, 0);
    }
  }

  /** When every assignment writes through a place rooted in a static or a promoted
      constant, no union is recorded and nothing escapes. */
  lemma OpaqueDestinationsEscapeNothing(mir: Body, escaping: seq<Local>)
    requires IsEscapingList(mir, escaping)
    requires forall st :: st in AllStatements(mir.basicBlocks) && st.Assign? ==> !Decompose(st.place).0.Local?
    ensures escaping == []
  {
    var statements := AllStatements(mir.basicBlocks);
    forall p | p in BodyUnions(mir)
      ensures false
    {
      StatementsUnionsMembers(statements, p);
      var st :| st in statements && p in StatementUnions(st);
      FindLocalInPlaceRoot(st.place);
      AssignUnionsMembers(st.place, st.rvalue, p.0, p.1);
    }
    NothingEscapesWithoutReturnUnion(mir, escaping);
  }

  /** A body declaring only the return place has an empty result. */
  lemma ReturnPlaceOnlyEscapesNothing(blocks: seq<BasicBlockData>, escaping: seq<Local>)
    requires IsEscapingList(Body(blocks, 1), escaping)
    ensures escaping == []
  {
    HeadIsMember(escaping);
  }

  /** States head membership as a fact, so that a caller whose assumptions rule out a
      non-empty list need not check an index there. */
  lemma HeadIsMember(xs: seq<Local>)
    ensures xs != [] ==> xs[0] in xs
  {
  }

  // ---------------------------------------------------------------------------
  // Small bodies

  function MoveOf(local: Local): Operand
  {
    Move(Local(local))
  }

  /** `_0 = move _1` in one block, then `_1 = move _2; _2 = move _3` in another. */
  function MoveChain(): Body
  {
    Body([BasicBlockData([Assign(Local(0), Use(MoveOf(1)))]),
          BasicBlockData([Assign(Local(1), Use(MoveOf(2))), Assign(Local(2), Use(MoveOf(3)))])],
         4)
  }

  /** The move chain's statements, block after block. */
  lemma MoveChainStatements()
    ensures AllStatements(MoveChain().basicBlocks) ==
            [Assign(Local(0), Use(MoveOf(1))), Assign(Local(1), Use(MoveOf(2))), Assign(Local(2), Use(MoveOf(3)))]
  {
    var s0, s1, s2 := Assign(Local(0), Use(MoveOf(1))), Assign(Local(1), Use(MoveOf(2))), Assign(Local(2), Use(MoveOf(3)));
    var blocks := MoveChain().basicBlocks;
    assert blocks[..0] == [] && blocks[..2] == blocks;
    AllStatementsSnoc(blocks, 0);
    AllStatementsSnoc(blocks, 1);
    assert [] + [s0] + [s1, s2] == [s0, s1, s2];
  }

  /** The move chain records one union per assignment, in visiting order. */
  lemma MoveChainUnions()
    ensures BodyUnions(MoveChain()) == [(0, 1), (1, 2), (2, 3)]
  {
    var s0, s1, s2 := Assign(Local(0), Use(MoveOf(1))), Assign(Local(1), Use(MoveOf(2))), Assign(Local(2), Use(MoveOf(3)));
    MoveChainStatements();
    assert StatementUnions(s0) == [(0, 1)];
    assert StatementUnions(s1) == [(1, 2)];
    assert StatementUnions(s2) == [(2, 3)];
    StatementsUnionsSnoc([], s0);
    StatementsUnionsSnoc([s0], s1);
    StatementsUnionsSnoc([s0, s1], s2);
    assert [] + [s0] == [s0] && [s0] + [s1] == [s0, s1] && [s0, s1] + [s2] == [s0, s1, s2];
  }

  /** Every local of the chain reaches the return place, across blocks. */
  lemma MoveChainEscapes(escaping: seq<Local>)
    requires IsEscapingList(MoveChain(), escaping)
    ensures escaping == [1, 2, 3]
  {
    MoveChainUnions();
    var pairs := BodyUnions(MoveChain());
    ConnectedLinked(pairs, 0, 1);
    ConnectedLinked(pairs, 1, 2);
    ConnectedLinked(pairs, 2, 3);
    ConnectedTransitive(pairs, 0, 1, 2);
    ConnectedTransitive(pairs, 0, 2, 3);
    assert IsEscapingList(MoveChain(), [1, 2, 3]);
    EscapingListUnique(MoveChain(), escaping, [1, 2, 3]);
  }

  /** A body of a single block holding `statements`, with `n` locals. */
  function OneBlock(statements: seq<Statement>, n: nat): Body
  {
    Body([BasicBlockData(statements)], n)
  }

  lemma OneBlockStatements(statements: seq<Statement>, n: nat)
    ensures AllStatements(OneBlock(statements, n).basicBlocks) == statements
  {
    assert [BasicBlockData(statements)][..0] == [];
  }

  lemma OneStatementUnions(statement: Statement, n: nat)
    ensures BodyUnions(OneBlock([statement], n)) == StatementUnions(statement)
  {
    OneBlockStatements([statement], n);
    StatementsUnionsSnoc([], statement);
    assert [] + [statement] == [statement];
  }

  /** `_0 = copy _1`: copies are not tracked. */
  lemma CopyDoesNotEscape(escaping: seq<Local>)
    requires IsEscapingList(OneBlock([Assign(Local(0), Use(Copy(Local(1))))], 2), escaping)
    ensures escaping == []
  {
    var st := Assign(Local(0), Use(Copy(Local(1))));
    OneBlockStatements([st], 2);
    StatementsUnionsSnoc([], st);
    ConnectedEmpty(0, 1);
    HeadIsMember(escaping);
  }

  /** The tuple `(copy _1, const, move _2, move (*_3).0)`. */
  function MixedTuple(): Rvalue
  {
    Aggregate(Tuple, [Copy(Local(1)), Constant, MoveOf(2), Move(Projection(Projection(Local(3), Deref), Field(0)))])
  }

  /** `_0 = (copy _1, const, move _2, move (*_3).0)` records a union for each moved
      operand and none for the copy or the constant. */
  lemma MixedTupleOperandUnions()
    ensures AggregateUnions(Some(0), MixedTuple().operands) == [(0, 2), (0, 3)]
  {
    var o0, o1, o2, o3 := Copy(Local(1)), Constant, MoveOf(2), Move(Projection(Projection(Local(3), Deref), Field(0)));
    AggregateUnionsSnoc(Some(0), [], o0);
    AggregateUnionsSnoc(Some(0), [o0], o1);
    AggregateUnionsSnoc(Some(0), [o0, o1], o2);
    AggregateUnionsSnoc(Some(0), [o0, o1, o2], o3);
    assert [] + [o0] == [o0];
    assert [o0] + [o1] == [o0, o1];
    assert [o0, o1] + [o2] == [o0, o1, o2];
    assert [o0, o1, o2] + [o3] == [o0, o1, o2, o3];
    assert AggregateUnions(Some(0), [o0]) == [];
    assert AggregateUnions(Some(0), [o0, o1]) == [];
    assert AggregateUnions(Some(0), [o0, o1, o2]) == [(0, 2)];
  }

  lemma MixedTupleUnions()
    ensures BodyUnions(OneBlock([Assign(Local(0), MixedTuple())], 4)) == [(0, 2), (0, 3)]
  {
    OneStatementUnions(Assign(Local(0), MixedTuple()), 4);
    MixedTupleOperandUnions();
  }

  /** Operands that do not resolve do not stop the others from escaping. */
  lemma MixedTupleEscapes(escaping: seq<Local>)
    requires IsEscapingList(OneBlock([Assign(Local(0), MixedTuple())], 4), escaping)
    ensures escaping == [2, 3]
  {
    var mir := OneBlock([Assign(Local(0), MixedTuple())], 4);
    MixedTupleUnions();
    var pairs := BodyUnions(mir);
    ConnectedLinked(pairs, 0, 2);
    ConnectedLinked(pairs, 0, 3);
    if Connected(pairs, 0, 1) {
      ConnectedSymmetric(pairs, 0, 1);
      ConnectedUntouched(pairs, 0, 1);
    }
    assert IsEscapingList(mir, [2, 3]);
    EscapingListUnique(mir, escaping, [2, 3]);
  }

  /** `_0 = move _1 as T` with a non-unsizing cast kind: not tracked. */
  lemma NonUnsizeCastDoesNotEscape(kind: CastKind, escaping: seq<Local>)
    requires kind != Unsize
    requires IsEscapingList(OneBlock([Assign(Local(0), Cast(kind, MoveOf(1)))], 2), escaping)
    ensures escaping == []
  {
    var st := Assign(Local(0), Cast(kind, MoveOf(1)));
    OneBlockStatements([st], 2);
    StatementsUnionsSnoc([], st);
    ConnectedEmpty(0, 1);
    HeadIsMember(escaping);
  }

  /** `_0 = move _1 as T` with an unsizing cast, then `_0 = &_2`. */
  function UnsizeThenBorrow(): Body
  {
    OneBlock([Assign(Local(0), Cast(Unsize, MoveOf(1))), Assign(Local(0), Ref(Shared, Local(2)))], 3)
  }

  lemma UnsizeThenBorrowUnions()
    ensures BodyUnions(UnsizeThenBorrow()) == [(0, 1), (0, 2)]
  {
    var s0, s1 := Assign(Local(0), Cast(Unsize, MoveOf(1))), Assign(Local(0), Ref(Shared, Local(2)));
    OneBlockStatements([s0, s1], 3);
    assert StatementUnions(s0) == [(0, 1)];
    assert StatementUnions(s1) == [(0, 2)];
    StatementsUnionsSnoc([], s0);
    StatementsUnionsSnoc([s0], s1);
    assert [] + [s0] == [s0] && [s0] + [s1] == [s0, s1];
  }

  /** An unsizing cast and a borrow are both tracked. */
  lemma UnsizeThenBorrowEscapes(escaping: seq<Local>)
    requires IsEscapingList(UnsizeThenBorrow(), escaping)
    ensures escaping == [1, 2]
  {
    UnsizeThenBorrowUnions();
    var pairs := BodyUnions(UnsizeThenBorrow());
    ConnectedLinked(pairs, 0, 1);
    ConnectedLinked(pairs, 0, 2);
    assert IsEscapingList(UnsizeThenBorrow(), [1, 2]);
    EscapingListUnique(UnsizeThenBorrow(), escaping, [1, 2]);
  }
}
