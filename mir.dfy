/** The fragment of the compiler's mid-level IR that the escape analysis inspects:
    places, operands, right-hand sides, statements, basic blocks and a body with
    its table of locals. Types, regions, spans and terminators are not represented. */
module Mir {

  datatype Option<T> = None | Some(value: T)

  /** A local slot of a body, by index; local 0 is the return place. */
  type Local = nat

  /** A selector applied to a place. `Index` names a local, but only as the index value. */
  datatype ProjectionElem =
    | Deref
    | Field(field: nat)
    | Index(index: Local)
    | ConstantIndex(offset: nat, minLength: nat, fromEnd: bool)
    | Subslice(from: nat, to: nat)
    | Downcast(variant: nat)

  datatype Place =
    | Local(local: Local)
    | Static(defId: nat)
    | Promoted(promoted: nat)
    | Projection(base: Place, elem: ProjectionElem)

  datatype Operand = Copy(place: Place) | Move(place: Place) | Constant

  datatype BorrowKind = Shared | Unique | Mut(allowTwoPhaseBorrow: bool)

  datatype CastKind = Misc | ReifyFnPointer | ClosureFnPointer | UnsafeFnPointer | Unsize

  datatype AggregateKind = Array | Tuple | Adt(variant: nat) | Closure | Generator

  datatype Rvalue =
    | Use(operand: Operand)
    | Repeat(operand: Operand, count: nat)
    | Ref(borrowKind: BorrowKind, place: Place)
    | Len(place: Place)
    | Cast(castKind: CastKind, operand: Operand)
    | BinaryOp(left: Operand, right: Operand)
    | CheckedBinaryOp(left: Operand, right: Operand)
    | NullaryOp
    | UnaryOp(operand: Operand)
    | Discriminant(place: Place)
    | Aggregate(aggregateKind: AggregateKind, operands: seq<Operand>)

  datatype Statement =
    | Assign(place: Place, rvalue: Rvalue)
    | SetDiscriminant(place: Place, variant: nat)
    | StorageLive(local: Local)
    | StorageDead(local: Local)
    | InlineAsm
    | Nop

  datatype BasicBlockData = BasicBlockData(statements: seq<Statement>)

  /** The MIR of one function: its basic blocks in index order, and the number of
      entries in its table of local declarations. */
  datatype Body = Body(basicBlocks: seq<BasicBlockData>, localCount: nat)

  /** The place reached from `root` by applying `elems` in order, innermost first. */
  function Projected(root: Place, elems: seq<ProjectionElem>): Place
  {
    if elems == [] then root
    else Projection(Projected(root, elems[..|elems| - 1]), elems[|elems| - 1])
  }

  /** Splits a place into the place at the root of its projection chain (never itself
      a projection) and the selectors applied to it. */
  function Decompose(place: Place): (parts: (Place, seq<ProjectionElem>))
    ensures !parts.0.Projection?
    ensures Projected(parts.0, parts.1) == place
  {
    match place
    case Projection(base, elem) =>
      var (root, elems) := Decompose(base);
      assert (elems + [elem])[..|elems|] == elems;
      (root, elems + [elem])
    case _ => (place, [])
  }

  /** Decompose undoes Projected: a chain over a non-projection root splits back into
      exactly that root and those selectors. */
  lemma {:induction false} DecomposeProjected(root: Place, elems: seq<ProjectionElem>)
    requires !root.Projection?
    ensures Decompose(Projected(root, elems)) == (root, elems)
  {
    if elems != [] {
      var init, last := elems[..|elems| - 1], elems[|elems| - 1];
      DecomposeProjected(root, init);
      assert Projected(root, elems) == Projection(Projected(root, init), last);
      assert Decompose(Projected(root, elems)) == (root, init + [last]);
      assert init + [last] == elems;
    }
  }

  /** The concatenation of f(x) for every x of xs, in order. */
  function FlatMap<T, U>(f: T -> seq<U>, xs: seq<T>): seq<U>
  {
    if xs == [] then []
    else FlatMap(f, xs[..|xs| - 1]) + f(xs[|xs| - 1])
  }

  lemma FlatMapSnoc<T, U>(f: T -> seq<U>, xs: seq<T>, x: T)
    ensures FlatMap(f, xs + [x]) == FlatMap(f, xs) + f(x)
  {
    assert (xs + [x])[..|xs|] == xs;
  }

  lemma {:induction false} FlatMapAppend<T, U>(f: T -> seq<U>, xs: seq<T>, ys: seq<T>)
    ensures FlatMap(f, xs + ys) == FlatMap(f, xs) + FlatMap(f, ys)
    decreases |ys|
  {
    if ys == [] {
      assert xs + ys == xs;
    } else {
      var init, last := ys[..|ys| - 1], ys[|ys| - 1];
      assert ys == init + [last];
      assert xs + ys == (xs + init) + [last];
      FlatMapSnoc(f, init, last);
      FlatMapAppend(f, xs, init);
      FlatMapSnoc(f, xs + init, last);
      var a, b, c := FlatMap(f, xs), FlatMap(f, init), f(last);
      assert (a + b) + c == a + (b + c);
    }
  }

  /** Whatever one element produces is among the whole result. */
  lemma FlatMapContains<T, U>(f: T -> seq<U>, xs: seq<T>, i: nat)
    requires i < |xs|
    ensures forall u :: u in f(xs[i]) ==> u in FlatMap(f, xs)
  {
    FlatMapAppend(f, xs[..i + 1], xs[i + 1..]);
    assert xs[..i + 1] + xs[i + 1..] == xs;
    FlatMapSnoc(f, xs[..i], xs[i]);
    assert xs[..i] + [xs[i]] == xs[..i + 1];
  }

  /** An element is produced iff some x of xs produces it. */
  lemma {:induction false} FlatMapMembers<T, U>(f: T -> seq<U>, xs: seq<T>, u: U)
    ensures u in FlatMap(f, xs) <==> exists x :: x in xs && u in f(x)
  {
    if xs != [] {
      var init, last := xs[..|xs| - 1], xs[|xs| - 1];
      FlatMapMembers(f, init, u);
      assert xs == init + [last];
    }
  }

  /** Every statement of the blocks, block by block, each block's in stored order. */
  function AllStatements(blocks: seq<BasicBlockData>): seq<Statement>
  {
    if blocks == [] then []
    else AllStatements(blocks[..|blocks| - 1]) + blocks[|blocks| - 1].statements
  }
}
