/**
  What the static factories make_unary, make_zeros and make_ones of
  1/src/matrix.h write into map_: they fill the positions of the shape row
  by row, directly and without pruning, so the stored zeros of a matrix
  whose threshold is (almost) 0 stay in place.
 */
module Factories {
  import opened Sparse

  /** Which factory. */
  datatype Kind = Unary | Zeros | Ones

  /** The positions of a rows x cols matrix. */
  function Grid(rows: nat, cols: nat): set<Cell> {
    set r: nat, c: nat | 1 <= r <= rows && 1 <= c <= cols :: (r, c)
  }

  lemma GridMembers(rows: nat, cols: nat)
    ensures forall x: Cell :: x in Grid(rows, cols) <==> InShape(x, rows, cols)
  {
    forall x: Cell | InShape(x, rows, cols) ensures x in Grid(rows, cols) {
      var (r, c) := x;
      assert (r, c) in Grid(rows, cols);
    }
  }

  /**
    Whether the factory writes position `x`: make_unary writes a 0
    everywhere when is_zero(eps) and a 1 on the diagonal when eps < 1;
    make_zeros and make_ones write everywhere or nowhere.
   */
  predicate Writes(kind: Kind, x: Cell, eps: real) {
    match kind
    case Unary => IsZero(eps) || (x.0 == x.1 && eps < 1.0)
    case Zeros => IsZero(eps)
    case Ones => eps < 1.0
  }

  /** The value the factory leaves at a position it writes (the 1 of make_unary comes last). */
  function Value(kind: Kind, x: Cell, eps: real): int {
    match kind
    case Unary => if x.0 == x.1 && eps < 1.0 then 1 else 0
    case Zeros => 0
    case Ones => 1
  }

  /** Row-by-row order: position x comes no later than (i, j). */
  predicate Visited(x: Cell, i: nat, j: nat) {
    x.0 < i || (x.0 == i && x.1 <= j)
  }

  /** map_ of the result once the factory's loops have reached (i, j). */
  function FactoryUpTo(kind: Kind, rows: nat, cols: nat, eps: real, i: nat, j: nat): Store {
    map x | x in Grid(rows, cols) && Visited(x, i, j) && Writes(kind, x, eps) :: Value(kind, x, eps)
  }

  /** map_ of the result of the factory. */
  function FactoryStore(kind: Kind, rows: nat, cols: nat, eps: real): Store {
    map x | x in Grid(rows, cols) && Writes(kind, x, eps) :: Value(kind, x, eps)
  }

  lemma FactoryNext(kind: Kind, rows: nat, cols: nat, eps: real, i: nat, j: nat)
    requires 1 <= i <= rows && 1 <= j <= cols
    ensures FactoryUpTo(kind, rows, cols, eps, i, j) ==
      if Writes(kind, (i, j), eps) then FactoryUpTo(kind, rows, cols, eps, i, j - 1)[(i, j) := Value(kind, (i, j), eps)]
      else FactoryUpTo(kind, rows, cols, eps, i, j - 1)
  {
    assert (i, j) in Grid(rows, cols);
  }

  lemma FactoryRowDone(kind: Kind, rows: nat, cols: nat, eps: real, i: nat)
    ensures FactoryUpTo(kind, rows, cols, eps, i, cols) == FactoryUpTo(kind, rows, cols, eps, i + 1, 0)
  {
  }

  lemma FactoryStart(kind: Kind, rows: nat, cols: nat, eps: real)
    ensures FactoryUpTo(kind, rows, cols, eps, 1, 0) == map[]
  {
  }

  lemma FactoryDone(kind: Kind, rows: nat, cols: nat, eps: real)
    ensures FactoryUpTo(kind, rows, cols, eps, rows + 1, 0) == FactoryStore(kind, rows, cols, eps)
  {
  }

  /** A factory that writes nothing leaves map_ empty. */
  lemma FactoryNothing(kind: Kind, rows: nat, cols: nat, eps: real)
    requires forall x :: !Writes(kind, x, eps)
    ensures FactoryStore(kind, rows, cols, eps) == map[]
  {
  }

  /** The element a read of a made matrix returns. */
  function Seen(kind: Kind, x: Cell, eps: real): int {
    match kind
    case Unary => if x.0 == x.1 && eps < 1.0 then 1 else 0
    case Zeros => 0
    case Ones => if eps < 1.0 then 1 else 0
  }

  /**
    What reads of a made matrix see: the identity when eps < 1 (the 1s on
    the diagonal survive pruning, the 0s are 0 either way) and else zeros;
    zeros always; ones when eps < 1 and else zeros.  And every stored
    position lies inside the shape.
   */
  lemma {:induction false} FactoryReads(kind: Kind, rows: nat, cols: nat, eps: real)
    ensures InRange(FactoryStore(kind, rows, cols, eps), rows, cols)
    ensures forall x :: InShape(x, rows, cols) ==> Get(Prune(FactoryStore(kind, rows, cols, eps), eps), x) == Seen(kind, x, eps)
  {
    GridMembers(rows, cols);
  }

  /**
    Which positions are stored: with is_zero(eps) every position of the
    shape, and otherwise only the positions the 1s go to.
   */
  lemma {:induction false} FactoryKeys(kind: Kind, rows: nat, cols: nat, eps: real)
    ensures forall x :: x in FactoryStore(kind, rows, cols, eps) <==> InShape(x, rows, cols) && Writes(kind, x, eps)
    ensures IsZero(eps) ==> forall x :: x in FactoryStore(kind, rows, cols, eps) <==> InShape(x, rows, cols)
  {
    GridMembers(rows, cols);
  }

  /** make_unary(2, 3, 0.5): the 1s at (1, 1) and (2, 2), nothing else. */
  lemma UnaryTest()
    ensures FactoryStore(Unary, 2, 3, 0.5) == map[(1, 1) := 1, (2, 2) := 1]
  {
    var s := FactoryStore(Unary, 2, 3, 0.5);
    FactoryKeys(Unary, 2, 3, 0.5);
    assert (1, 1) in s && (2, 2) in s;
  }

  /** make_ones(2, 1, 0.5): 1 at (1, 1) and (2, 1). */
  lemma OnesTest()
    ensures FactoryStore(Ones, 2, 1, 0.5) == map[(1, 1) := 1, (2, 1) := 1]
  {
    var s := FactoryStore(Ones, 2, 1, 0.5);
    FactoryKeys(Ones, 2, 1, 0.5);
    assert (1, 1) in s && (2, 1) in s;
  }

  /** make_zeros(5, 6, 0.5): nothing stored. */
  lemma ZerosTest()
    ensures FactoryStore(Zeros, 5, 6, 0.5) == map[]
  {
    FactoryNothing(Zeros, 5, 6, 0.5);
  }
}
