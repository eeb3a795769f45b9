/** The conservative escape analysis: a walk over a body's assignments that unions, in
    a disjoint-set table keyed by local index, each destination local with the locals
    that a tracked right-hand side moves or borrows from; the locals left in the set of
    the return place (local 0) are reported as flowing into the function's result. */
module EscapingLocals {
  import opened Mir
  import opened Partition
  import opened UnionFind

  /** The largest value of a u32; a local converted to a key must lie below it. */
  const U32_MAX: nat := 0xFFFF_FFFF

  /** A unification key standing for the local of the same index. */
  datatype AssignedLocal = AssignedLocal(index: u32)
  {
    /** Converts a local to its key; the conversion never truncates. */
    static function From(local: Local): (key: AssignedLocal)
      requires local < U32_MAX
      ensures key.index == local
    {
      AssignedLocal(local)
    }
  }

  // ---------------------------------------------------------------------------
  // Place and operand resolution

  /** The local at the root of a place's projection chain; none when the chain is
      rooted in a static or a promoted constant. */
  function FindLocalInPlace(place: Place): Option<Local>
  {
    match place
    case Local(local) => Some(local)
    case Projection(base, _) => FindLocalInPlace(base)
    case _ => None
  }

  /** Only a move is tracked: copies and constants never resolve to a local. */
  function FindLocalInOperand(op: Operand): (r: Option<Local>)
    ensures r.Some? <==> op.Move? && FindLocalInPlace(op.place).Some?
    ensures r.Some? ==> r == FindLocalInPlace(op.place)
  {
    match op
    case Move(place) => FindLocalInPlace(place)
    case _ => None
  }

  /** A place resolves to the local at the root of its projection chain, if that root
      is a local at all. */
  lemma {:induction false} FindLocalInPlaceRoot(place: Place)
    ensures var root := Decompose(place).0;
            FindLocalInPlace(place) == if root.Local? then Some(root.local) else None
  {
    if place.Projection? {
      FindLocalInPlaceRoot(place.base);
    }
  }

  /** However many selectors are applied, a place resolves to the local at its root,
      and a place rooted in a static or promoted constant never resolves. */
  lemma FindLocalThroughProjections(root: Place, elems: seq<ProjectionElem>)
    requires !root.Projection?
    ensures FindLocalInPlace(Projected(root, elems)) == if root.Local? then Some(root.local) else None
  {
    DecomposeProjected(root, elems);
    FindLocalInPlaceRoot(Projected(root, elems));
  }

  // ---------------------------------------------------------------------------
  // The unions the walk records, as values

  /** The union recorded for one destination and one source: none when either side is
      unresolved or both are the same local. */
  function UnionIfNeeded(lvalue: Option<Local>, rvalue: Option<Local>): seq<(Local, Local)>
  {
    if lvalue.Some? && rvalue.Some? && lvalue.value != rvalue.value then [(lvalue.value, rvalue.value)]
    else []
  }

  /** The unions recorded for an aggregate, one per operand, in operand order. */
  function AggregateUnions(local: Option<Local>, ops: seq<Operand>): seq<(Local, Local)>
  {
    FlatMap((op: Operand) => UnionIfNeeded(local, FindLocalInOperand(op)), ops)
  }

  /** The unions recorded for the assignment `place = rvalue`. */
  function AssignUnions(place: Place, rvalue: Rvalue): seq<(Local, Local)>
  {
    var local := FindLocalInPlace(place);
    match rvalue
    case Use(op) => UnionIfNeeded(local, FindLocalInOperand(op))
    case Ref(_, source) => UnionIfNeeded(local, FindLocalInPlace(source))
    case Cast(kind, op) => if kind == Unsize then UnionIfNeeded(local, FindLocalInOperand(op)) else []
    case Aggregate(_, ops) => AggregateUnions(local, ops)
    case _ => []
  }

  function StatementUnions(statement: Statement): seq<(Local, Local)>
  {
    match statement
    case Assign(place, rvalue) => AssignUnions(place, rvalue)
    case _ => []
  }

  /** The unions recorded for a list of statements, statement by statement. */
  function StatementsUnions(statements: seq<Statement>): seq<(Local, Local)>
  {
    FlatMap(StatementUnions, statements)
  }

  /** Every union the walk over a body records, in visiting order. */
  function BodyUnions(mir: Body): seq<(Local, Local)>
  {
    StatementsUnions(AllStatements(mir.basicBlocks))
  }

  /** The locals whose identity a right-hand side forwards into its destination: the
      moved or borrowed local of `Use`, `Ref` and unsizing `Cast`, and every moved local
      among an aggregate's operands. */
  function TrackedSources(rvalue: Rvalue): set<Local>
  {
    match rvalue
    case Use(op) => if FindLocalInOperand(op).Some? then {FindLocalInOperand(op).value} else {}
    case Ref(_, source) => if FindLocalInPlace(source).Some? then {FindLocalInPlace(source).value} else {}
    case Cast(kind, op) =>
      if kind == Unsize && FindLocalInOperand(op).Some? then {FindLocalInOperand(op).value} else {}
    case Aggregate(_, ops) =>
      set op | op in ops && FindLocalInOperand(op).Some? :: FindLocalInOperand(op).value
    case _ => {}
  }

  /** A union pair of the walk fits the table: both keys are allocated and convertible. */
  predicate KeysFit(pair: (Local, Local), n: nat)
  {
    pair.0 < n && pair.1 < n && pair.0 < U32_MAX && pair.1 < U32_MAX
  }

  /** Every union the walk over the body would perform names declared locals that
      convert to keys. */
  predicate UnionsInRange(mir: Body)
  {
    forall b, s, p ::
      (0 <= b < |mir.basicBlocks| && 0 <= s < |mir.basicBlocks[b].statements| &&
       p in StatementUnions(mir.basicBlocks[b].statements[s])) ==> KeysFit(p, mir.localCount)
  }

  lemma AggregateUnionsMembers(local: Option<Local>, ops: seq<Operand>, x: Local, y: Local)
    ensures (x, y) in AggregateUnions(local, ops) <==>
            local == Some(x) && x != y && exists op :: op in ops && FindLocalInOperand(op) == Some(y)
  {
    FlatMapMembers((op: Operand) => UnionIfNeeded(local, FindLocalInOperand(op)), ops, (x, y));
  }

  lemma AggregateUnionsSnoc(local: Option<Local>, ops: seq<Operand>, op: Operand)
    ensures AggregateUnions(local, ops + [op]) == AggregateUnions(local, ops) + UnionIfNeeded(local, FindLocalInOperand(op))
  {
    FlatMapSnoc((op: Operand) => UnionIfNeeded(local, FindLocalInOperand(op)), ops, op);
  }

  /** The union recorded for operand i is among the aggregate's. */
  lemma AggregateUnionsContains(local: Option<Local>, ops: seq<Operand>, i: nat)
    requires i < |ops|
    ensures forall p :: p in UnionIfNeeded(local, FindLocalInOperand(ops[i])) ==> p in AggregateUnions(local, ops)
  {
    FlatMapContains((op: Operand) => UnionIfNeeded(local, FindLocalInOperand(op)), ops, i);
  }

  /** An assignment records the union of its destination local x with y exactly when y
      is a different local among the right-hand side's tracked sources. */
  lemma AssignUnionsMembers(place: Place, rvalue: Rvalue, x: Local, y: Local)
    ensures (x, y) in AssignUnions(place, rvalue) <==>
            FindLocalInPlace(place) == Some(x) && x != y && y in TrackedSources(rvalue)
  {
    if rvalue.Aggregate? {
      AggregateUnionsMembers(FindLocalInPlace(place), rvalue.operands, x, y);
    }
  }

  lemma AllStatementsSnoc(blocks: seq<BasicBlockData>, b: nat)
    requires b < |blocks|
    ensures AllStatements(blocks[..b + 1]) == AllStatements(blocks[..b]) + blocks[b].statements
  {
    assert blocks[..b + 1][..b] == blocks[..b];
  }

  /** Once an assignment's unions are recorded, its destination local is in one set
      with each of its tracked sources. */
  lemma AssignedLocalJoinsSources(place: Place, rvalue: Rvalue, unions: seq<(Local, Local)>)
    requires FindLocalInPlace(place).Some?
    requires forall p :: p in AssignUnions(place, rvalue) ==> p in unions
    ensures forall y :: y in TrackedSources(rvalue) ==> Connected(unions, FindLocalInPlace(place).value, y)
  {
    var x := FindLocalInPlace(place).value;
    forall y | y in TrackedSources(rvalue)
      ensures Connected(unions, x, y)
    {
      if y == x {
        ConnectedReflexive(unions, y);
      } else {
        AssignUnionsMembers(place, rvalue, x, y);
        ConnectedLinked(unions, x, y);
      }
    }
  }

  lemma StatementsUnionsSnoc(statements: seq<Statement>, statement: Statement)
    ensures StatementsUnions(statements + [statement]) == StatementsUnions(statements) + StatementUnions(statement)
  {
    FlatMapSnoc(StatementUnions, statements, statement);
  }

  lemma StatementsUnionsStep(statements: seq<Statement>, s: nat)
    requires s < |statements|
    ensures StatementsUnions(statements[..s + 1]) == StatementsUnions(statements[..s]) + StatementUnions(statements[s])
  {
    assert statements[..s + 1] == statements[..s] + [statements[s]];
    StatementsUnionsSnoc(statements[..s], statements[s]);
  }

  /** The unions of a concatenation are those of its parts, in order. */
  lemma StatementsUnionsAppend(xs: seq<Statement>, ys: seq<Statement>)
    ensures StatementsUnions(xs + ys) == StatementsUnions(xs) + StatementsUnions(ys)
  {
    FlatMapAppend(StatementUnions, xs, ys);
  }

  /** A pair is recorded for a list of statements iff some statement records it. */
  lemma StatementsUnionsMembers(statements: seq<Statement>, p: (Local, Local))
    ensures p in StatementsUnions(statements) <==> exists st :: st in statements && p in StatementUnions(st)
  {
    FlatMapMembers(StatementUnions, statements, p);
  }

  // ---------------------------------------------------------------------------
  // The visitor

  /** Owns the disjoint-set table that the walk fills with the unions of tracked
      assignments. */
  class GatherAssignedLocalsVisitor {
    var unificationTable: UnificationTable

    constructor ()
      ensures fresh(unificationTable)
      ensures unificationTable.Valid() && unificationTable.Len() == 0 && unificationTable.unions == []
    {
      unificationTable := new UnificationTable();
    }

    /** Unions two locals when both resolved and differ; otherwise the partition is
        left exactly as it was. */
    method UnionLocalsIfNeeded(lvalue: Option<Local>, rvalue: Option<Local>)
      requires unificationTable.Valid()
      requires forall p :: p in UnionIfNeeded(lvalue, rvalue) ==> KeysFit(p, unificationTable.Len())
      modifies unificationTable
      ensures unificationTable.Valid() && unificationTable.Len() == old(unificationTable.Len())
      ensures unificationTable.unions == old(unificationTable.unions) + UnionIfNeeded(lvalue, rvalue)
      ensures lvalue.None? || rvalue.None? || lvalue == rvalue ==> unchanged(unificationTable)
      ensures lvalue.Some? && rvalue.Some? && lvalue != rvalue ==>
                && unificationTable.SameSet(lvalue.value, rvalue.value)
                && forall i, j :: unificationTable.SameSet(i, j) <==>
                     JoinedBy(old(unificationTable.unions), lvalue.value, rvalue.value, i, j)
    {
      if lvalue.Some? {
        if rvalue.Some? {
          if lvalue.value != rvalue.value {
            assert (lvalue.value, rvalue.value) in UnionIfNeeded(lvalue, rvalue);
            unificationTable.Union(AssignedLocal.From(lvalue.value).index, AssignedLocal.From(rvalue.value).index);
          }
        }
      }
    }

    /** Records the unions of one assignment; afterwards its destination local shares a
        set with every tracked source. */
    method VisitAssign(place: Place, rvalue: Rvalue)
      requires unificationTable.Valid()
      requires forall p :: p in AssignUnions(place, rvalue) ==> KeysFit(p, unificationTable.Len())
      modifies unificationTable
      ensures unificationTable.Valid() && unificationTable.Len() == old(unificationTable.Len())
      ensures unificationTable.unions == old(unificationTable.unions) + AssignUnions(place, rvalue)
      ensures AssignUnions(place, rvalue) == [] ==> unchanged(unificationTable)
      ensures FindLocalInPlace(place).Some? ==>
                forall y :: y in TrackedSources(rvalue) ==> unificationTable.SameSet(FindLocalInPlace(place).value, y)
    {
      var local := FindLocalInPlace(place);
      match rvalue {
        case Use(op) => UnionLocalsIfNeeded(local, FindLocalInOperand(op));
        case Ref(_, source) => UnionLocalsIfNeeded(local, FindLocalInPlace(source));
        case Cast(kind, op) =>
          if kind == Unsize {
            UnionLocalsIfNeeded(local, FindLocalInOperand(op));
          }
        case Aggregate(_, ops) =>
          for i := 0 to |ops|
            invariant unificationTable.Valid() && unificationTable.Len() == old(unificationTable.Len())
            invariant unificationTable.unions == old(unificationTable.unions) + AggregateUnions(local, ops[..i])
            invariant AggregateUnions(local, ops[..i]) == [] ==> unchanged(unificationTable)
          {
            AggregateUnionsContains(local, ops, i);
            UnionLocalsIfNeeded(local, FindLocalInOperand(ops[i]));
            AggregateUnionsSnoc(local, ops[..i], ops[i]);
            assert ops[..i] + [ops[i]] == ops[..i + 1];
          }
          assert ops[..|ops|] == ops;
        case _ =>
      }
      if local.Some? {
        AssignedLocalJoinsSources(place, rvalue, unificationTable.unions);
      }
    }

    /** Visits the assignments of one block, in stored order. */
    method VisitBasicBlockData(data: BasicBlockData)
      requires unificationTable.Valid()
      requires forall s, p :: 0 <= s < |data.statements| && p in StatementUnions(data.statements[s]) ==>
                 KeysFit(p, unificationTable.Len())
      modifies unificationTable
      ensures unificationTable.Valid() && unificationTable.Len() == old(unificationTable.Len())
      ensures unificationTable.unions == old(unificationTable.unions) + StatementsUnions(data.statements)
    {
      var table := unificationTable;
      var statements := data.statements;
      ghost var before := table.unions;
      for s := 0 to |statements|
        invariant table.Valid() && table.Len() == old(table.Len())
        invariant table.unions == before + StatementsUnions(statements[..s])
      {
        var statement := statements[s];
        match statement {
          case Assign(place, rvalue) =>
            assert forall p :: p in AssignUnions(place, rvalue) ==> KeysFit(p, table.Len());
            VisitAssign(place, rvalue);
          case _ =>
        }
        StatementsUnionsStep(statements, s);
      }
      assert statements[..|statements|] == statements;
    }

    /** Allocates one singleton key per local, so that key i stands for local i, then
        visits every block in index order. */
    method VisitMir(mir: Body)
      requires unificationTable.Valid() && unificationTable.Len() == 0 && unificationTable.unions == []
      requires UnionsInRange(mir)
      modifies unificationTable
      ensures unificationTable.Valid() && unificationTable.Len() == mir.localCount
      ensures unificationTable.unions == BodyUnions(mir)
    {
      var table := unificationTable;
      for i := 0 to mir.localCount
        invariant table.Valid() && table.Len() == i && table.unions == []
      {
        var key := table.NewKey();
      }
      var blocks := mir.basicBlocks;
      for b := 0 to |blocks|
        invariant table.Valid() && table.Len() == mir.localCount
        invariant table.unions == StatementsUnions(AllStatements(blocks[..b]))
      {
        VisitBasicBlockData(blocks[b]);
        AllStatementsSnoc(blocks, b);
        StatementsUnionsAppend(AllStatements(blocks[..b]), blocks[b].statements);
      }
      assert blocks[..|blocks|] == blocks;
    }
  }

  // ---------------------------------------------------------------------------
  // The escape query

  predicate StrictlyIncreasing(locals: seq<Local>)
  {
    forall i, j :: 0 <= i < j < |locals| ==> locals[i] < locals[j]
  }

  /** Finds every local other than the return place that ends up in the return place's
      set, in ascending order. */
  method FindEscapingLocals(mir: Body) returns (escapingLocals: seq<Local>)
    requires mir.localCount <= U32_MAX
    requires UnionsInRange(mir)
    ensures 0 !in escapingLocals
    ensures StrictlyIncreasing(escapingLocals)
    ensures forall s :: s in escapingLocals <==> 0 < s < mir.localCount && Connected(BodyUnions(mir), 0, s)
  {
    escapingLocals := [];
    var visitor := new GatherAssignedLocalsVisitor();
    visitor.VisitMir(mir);
    var table := visitor.unificationTable;
    ghost var unions := table.unions;
    var returnPlace := AssignedLocal(0);
    for local := 0 to mir.localCount
      invariant table.Valid() && table.Len() == mir.localCount && table.unions == unions
      invariant forall i :: 0 <= i < |escapingLocals| ==> 0 < escapingLocals[i] < local
      invariant StrictlyIncreasing(escapingLocals)
      invariant forall s :: 0 < s < local ==> (s in escapingLocals <==> Connected(unions, 0, s))
    {
      if local == 0 {
        continue;
      }
      var assignedLocal := AssignedLocal.From(local);
      if table.Unioned(returnPlace.index, assignedLocal.index) {
        escapingLocals := escapingLocals + [local];
      }
    }
  }
}
