/**
  The expected values of MatrixTest and ProxyTest in 1/src/matrix.h, as
  facts about the stores the operations of module Matrices produce.
 */
module MatrixTests {
  import opened Sparse
  import opened CellMoves

  /** The 3 x 4 left operand of the addition and subtraction tests. */
  function SumLeft(): Store { map[(1, 1) := 3, (1, 2) := 4] }

  /** The 3 x 4 right operand of the addition and subtraction tests. */
  function SumRight(): Store { map[(1, 2) := 3, (1, 3) := 4] }

  /** The 2 x 2 left operand of the product test. */
  function MulLeft(): Store { map[(1, 1) := 1, (1, 2) := 2, (2, 1) := 3, (2, 2) := 4] }

  /** The 2 x 1 right operand of the product test. */
  function MulRight(): Store { map[(1, 1) := 5, (2, 1) := 6] }

  /** The 3 x 3 block of the 100 x 100 matrix of the slicing test. */
  function Block(): Store {
    map[(1, 1) := 1, (1, 2) := 2, (1, 3) := 3,
        (2, 1) := 4, (2, 2) := 5, (2, 3) := 6,
        (3, 1) := 7, (3, 2) := 8, (3, 3) := 9]
  }

  /** The add test: 3, 7 and 4 in row 1. */
  lemma AddTest()
    ensures Prune(Added(Prune(SumLeft(), 0.5), Prune(SumRight(), 0.5)), 0.5) == map[(1, 1) := 3, (1, 2) := 7, (1, 3) := 4]
  {
    var l, r := SumLeft(), SumRight();
    PruneNone(l, 0.5);
    PruneNone(r, 0.5);
    var a := Added(l, r);
    assert a.Keys == {(1, 1), (1, 2), (1, 3)};
    assert a[(1, 1)] == 3 && a[(1, 2)] == 7 && a[(1, 3)] == 4;
    var e: Store := map[(1, 1) := 3, (1, 2) := 7, (1, 3) := 4];
    assert a == e;
    PruneNone(a, 0.5);
  }

  /** The sub test: 3, 1 and -4 in row 1. */
  lemma SubTest()
    ensures Prune(Added(Prune(SumLeft(), 0.5), Prune(Negated(SumRight()), 0.5)), 0.5) == map[(1, 1) := 3, (1, 2) := 1, (1, 3) := -4]
  {
    var l, n := SumLeft(), Negated(SumRight());
    assert n.Keys == {(1, 2), (1, 3)};
    assert n[(1, 2)] == -3 && n[(1, 3)] == -4;
    PruneNone(l, 0.5);
    PruneNone(n, 0.5);
    var a := Added(l, n);
    assert a.Keys == {(1, 1), (1, 2), (1, 3)};
    assert a[(1, 1)] == 3 && a[(1, 2)] == 1 && a[(1, 3)] == -4;
    var e: Store := map[(1, 1) := 3, (1, 2) := 1, (1, 3) := -4];
    assert a == e;
    PruneNone(a, 0.5);
  }

  /** The mul test: 17 and 39 in column 1. */
  lemma MulTest()
    ensures Prune(MovedStore(Product(Prune(MulRight(), 0.5), 2), Prune(MulLeft(), 0.5), Elems(RowMajor(2, 1))), 0.5)
      == map[(1, 1) := 17, (2, 1) := 39]
  {
    PruneNone(MulLeft(), 0.5);
    PruneNone(MulRight(), 0.5);
    MulProduct();
    PruneNone(map[(1, 1) := 17, (2, 1) := 39], 0.5);
  }

  lemma MulProduct()
    ensures MovedStore(Product(MulRight(), 2), MulLeft(), Elems(RowMajor(2, 1))) == map[(1, 1) := 17, (2, 1) := 39]
  {
    ProductMeaning(MulLeft(), MulRight(), 2, 1, 2);
    MulDots();
    ColumnOf(MovedStore(Product(MulRight(), 2), MulLeft(), Elems(RowMajor(2, 1))), 17, 39);
  }

  /** A store of the 2 x 1 shape is determined by its two values. */
  lemma ColumnOf(p: Store, u: int, v: int)
    requires forall k :: k in p <==> InShape(k, 2, 1)
    requires (1, 1) in p ==> p[(1, 1)] == u
    requires (2, 1) in p ==> p[(2, 1)] == v
    ensures p == map[(1, 1) := u, (2, 1) := v]
  {
    assert InShape((1, 1), 2, 1) && InShape((2, 1), 2, 1);
    assert p.Keys == {(1, 1), (2, 1)};
  }

  lemma MulDots()
    ensures Dot(MulLeft(), MulRight(), 1, 1, 2) == 17 && Dot(MulLeft(), MulRight(), 2, 1, 2) == 39
  {
  }

  /** The transpose test: 4 at (1, 2) moves to (2, 1). */
  lemma TransposeTest()
    ensures MovedStore(Swap, map[(1, 2) := 4], {(1, 2)}) == map[(2, 1) := 4]
  {
    var s: Store := map[(1, 2) := 4];
    TransposeMeaning(s);
    assert s.Keys == {(1, 2)};
    assert (2, 1) in MovedStore(Swap, s, s.Keys);
  }

  /** The minus test: 4 at (1, 2) becomes -4. */
  lemma MinusTest()
    ensures Negated(map[(1, 2) := 4]) == map[(1, 2) := -4]
  {
    assert Negated(map[(1, 2) := 4]).Keys == {(1, 2)};
  }

  /** The change elem test: writing 8 at (1, 2) reads back as 8. */
  lemma ChangeElemTest()
    ensures Get(Prune(Assign(MulLeft(), (1, 2), 8, 0.5), 0.5), (1, 2)) == 8
  {
    WriteThenRead(MulLeft(), (1, 2), 8, 0.5);
  }

  /**
    The proxy elem and proxy to matrix tests: the slice {-1, 2, 2, 4} of
    the block, copied out, holds 2, 3, 5 and 6 renumbered from (1, 1), and
    nothing in its third column.
   */
  lemma ProxyTest()
    ensures Get(MovedStore(Window(0, 1, 2, 3), Block(), Block().Keys), (1, 1)) == 2
    ensures Get(MovedStore(Window(0, 1, 2, 3), Block(), Block().Keys), (1, 2)) == 3
    ensures Get(MovedStore(Window(0, 1, 2, 3), Block(), Block().Keys), (2, 1)) == 5
    ensures Get(MovedStore(Window(0, 1, 2, 3), Block(), Block().Keys), (2, 2)) == 6
    ensures Get(MovedStore(Window(0, 1, 2, 3), Block(), Block().Keys), (1, 3)) == 0
    ensures Get(MovedStore(Window(0, 1, 2, 3), Block(), Block().Keys), (2, 3)) == 0
  {
    var s := Block();
    WindowAt(s, 0, 1, 2, 3, (1, 1));
    WindowAt(s, 0, 1, 2, 3, (1, 2));
    WindowAt(s, 0, 1, 2, 3, (2, 1));
    WindowAt(s, 0, 1, 2, 3, (2, 2));
    WindowAt(s, 0, 1, 2, 3, (1, 3));
    WindowAt(s, 0, 1, 2, 3, (2, 3));
  }
}
