/**
  Matrix<int> and Matrix_proxy of 1/src/matrix.h.

  A Matrix holds its elements in `store` (the flattened map_ of module
  Sparse), the threshold `eps`, its shape and the set of slices (proxies)
  made from it.  Reading and writing prune first, so the "const" read
  paths are methods that may change `store`; every such change removes
  only elements whose magnitude is below eps.

  Exceptions become `Failure` results carrying a MatrixError; the operand
  copies the C++ exception objects carry are not kept.
 */
module Matrices {
  import opened Wrappers
  import opened Machine
  import opened Sparse
  import opened CellMoves
  import opened Coords
  import opened Factories

  /** The exception classes of 1/src/matrix.h that Matrix<int> can throw. */
  datatype MatrixError =
    | InvalidIndex          // invalid_index_error
    | SizeDifferentiation   // size_differentiation_error
    | Multiplication        // multiplication_error
    | InvalidMatrixCoords   // invalid_matrix_coords_error
    | InvalidProxyIndex     // invalid_proxy_index_error
    | ParentDeleted         // parent_deleted_error

  /**
    The outcome of operator==: the entry counts of the two pruned stores
    must agree, then the entries of `l` are compared in ascending order
    with reads of the right-hand matrix, which throw outside its shape.
   */
  function CompareStores(l: Store, r: Store, rows: nat, cols: nat): Result<bool, MatrixError> {
    if |l| != |r| then Success(false) else CompareCells(l, r, rows, cols, Ordered(l.Keys), 0)
  }

  /** The loop of operator== over the cells cs[i], cs[i + 1], ... of `l`. */
  function CompareCells(l: Store, r: Store, rows: nat, cols: nat, cs: seq<Cell>, i: nat): Result<bool, MatrixError>
    requires forall k :: 0 <= k < |cs| ==> cs[k] in l
    decreases |cs| - i
  {
    if i >= |cs| then Success(true)
    else if !InShape(cs[i], rows, cols) then Failure(InvalidIndex)
    else if Get(r, cs[i]) != l[cs[i]] then Success(false)
    else CompareCells(l, r, rows, cols, cs, i + 1)
  }

  /** With every position of `l` inside the shape, the loop of operator== is the test "every read agrees". */
  lemma {:induction false} CompareCellsAll(l: Store, r: Store, rows: nat, cols: nat, cs: seq<Cell>, i: nat)
    requires forall k :: 0 <= k < |cs| ==> cs[k] in l
    requires forall k :: i <= k < |cs| ==> InShape(cs[k], rows, cols)
    ensures CompareCells(l, r, rows, cols, cs, i) == Success(forall k :: i <= k < |cs| ==> Get(r, cs[k]) == l[cs[k]])
    decreases |cs| - i
  {
    if i < |cs| {
      CompareCellsAll(l, r, rows, cols, cs, i + 1);
    }
  }

  /** No element is stored as 0: the case of every store pruned with a positive eps. */
  predicate NoZeros(s: Store) {
    forall x :: x in s ==> s[x] != 0
  }

  lemma PositiveThreshold(s: Store, eps: real)
    requires eps > 0.0
    ensures NoZeros(Prune(s, eps))
  {
  }

  /**
    Without stored zeros, and with the left elements inside the shape
    used for the reads, operator== is equality of the elements.
   */
  lemma CompareMeaning(l: Store, r: Store, rows: nat, cols: nat)
    requires InRange(l, rows, cols) && NoZeros(l) && NoZeros(r)
    ensures CompareStores(l, r, rows, cols) == Success(l == r)
  {
    var cs := Ordered(l.Keys);
    CompareCellsAll(l, r, rows, cols, cs, 0);
    if |l| == |r| && CompareCells(l, r, rows, cols, cs, 0).value {
      forall x | x in l ensures Get(r, x) == l[x] {
        var k :| 0 <= k < |cs| && cs[k] == x;
      }
      AgreeingReads(l, r);
    }
  }

  /** Stores of the same size without stored zeros, whose left elements all read the same on the right, are equal. */
  lemma AgreeingReads(l: Store, r: Store)
    requires NoZeros(l) && |l| == |r|
    requires forall x :: x in l ==> Get(r, x) == l[x]
    ensures l == r
  {
    assert l.Keys <= r.Keys;
    var d := r.Keys - l.Keys;
    assert r.Keys == l.Keys + d;
    assert |d| == 0;
  }

  /**
    As written, operator== is not symmetric once zeros are stored (a
    threshold of 0, as used for full matrices): a 1 x 2 matrix holding a
    stored 0 at (1, 1) compares equal to one holding 5 at (1, 2), but not
    the other way round, although the reads at (1, 2) differ.
   */
  lemma EqualsAsymmetric()
    ensures Prune(map[(1, 1) := 0], 0.0) == map[(1, 1) := 0]
    ensures Prune(map[(1, 2) := 5], 0.0) == map[(1, 2) := 5]
    ensures CompareStores(map[(1, 1) := 0], map[(1, 2) := 5], 1, 2) == Success(true)
    ensures CompareStores(map[(1, 2) := 5], map[(1, 1) := 0], 1, 2) == Success(false)
  {
    var a: Store, b: Store := map[(1, 1) := 0], map[(1, 2) := 5];
    NonPositiveThreshold(a, 0.0);
    NonPositiveThreshold(b, 0.0);
    var ca, cb := Ordered(a.Keys), Ordered(b.Keys);
    assert ca[0] in a && cb[0] in b;
    assert ca == [(1, 1)] && cb == [(1, 2)];
    assert CompareCells(a, b, 1, 2, ca, 1) == Success(true);
  }

  /** The elements a matrix holds as reads see them: the stored zeros dropped. */
  function NonZeros(s: Store): (t: Store)
    ensures NoZeros(t)
  {
    map x | x in s && s[x] != 0 :: s[x]
  }

  /**
    operator== as evidently intended: the same exception for a left
    element outside the shape, and otherwise equality of what reads see.
   */
  function CompareValues(l: Store, r: Store, rows: nat, cols: nat): Result<bool, MatrixError> {
    if !InRange(l, rows, cols) then Failure(InvalidIndex) else Success(NonZeros(l) == NonZeros(r))
  }

  /** The corrected comparison holds iff every read agrees, so it is symmetric. */
  lemma CompareValuesMeaning(l: Store, r: Store, rows: nat, cols: nat)
    requires InRange(l, rows, cols) && InRange(r, rows, cols)
    ensures CompareValues(l, r, rows, cols).Success?
    ensures CompareValues(l, r, rows, cols).value <==> forall x :: Get(l, x) == Get(r, x)
    ensures CompareValues(l, r, rows, cols) == CompareValues(r, l, rows, cols)
  {
    if forall x :: Get(l, x) == Get(r, x) {
      forall x ensures x in NonZeros(l) <==> x in NonZeros(r) {
        assert Get(l, x) == Get(r, x);
      }
      forall x | x in NonZeros(l) ensures NonZeros(l)[x] == NonZeros(r)[x] {
        assert Get(l, x) == Get(r, x);
      }
      assert NonZeros(l) == NonZeros(r);
    }
    if NonZeros(l) == NonZeros(r) {
      forall x ensures Get(l, x) == Get(r, x) {
        assert Get(l, x) == Get(NonZeros(l), x);
        assert Get(r, x) == Get(NonZeros(r), x);
      }
    }
  }

  /** Where no zero is stored, in particular for every positive eps, the two comparisons agree. */
  lemma CompareAgrees(l: Store, r: Store, rows: nat, cols: nat)
    requires InRange(l, rows, cols) && NoZeros(l) && NoZeros(r)
    ensures CompareStores(l, r, rows, cols) == CompareValues(l, r, rows, cols)
  {
    CompareMeaning(l, r, rows, cols);
    assert NonZeros(l) == l && NonZeros(r) == r;
  }

  /**
    The `int` loop counters of operator*= (over the rows, the other
    matrix's columns and the inner dimension) stay below INT_MAX: each
    loop that runs at all ends before its counter would overflow.
   */
  predicate CountersFit(rows: nat, inner: nat, cols: nat) {
    rows < INT_MAX && (rows == 0 || cols < INT_MAX) && (rows == 0 || cols == 0 || inner < INT_MAX)
  }

  /**
    The `int` counters of the factories' nested loops stay below INT_MAX:
    the row loop always runs, the column loop only when there is a row.
   */
  predicate GridFits(rows: nat, cols: nat) {
    rows < INT_MAX && (rows == 0 || cols < INT_MAX)
  }

  /** The stores a matrix `m` may hold after its reads pruned it zero or more times. */
  ghost predicate PrunedOrNot(now: Store, before: Store, eps: real) {
    now == before || now == Prune(before, eps)
  }

  /** Erasing exactly the positions of the small elements prunes. */
  lemma EraseSmall(s: Store, d: set<Cell>, eps: real)
    requires forall x :: x in d <==> x in s && Small(s[x], eps)
    ensures s - d == Prune(s, eps)
  {
  }

  /** The positions of `cs` whose elements are below eps, in the order of `cs`. */
  function SmallIn(s: Store, cs: seq<Cell>, eps: real): seq<Cell>
    requires forall k :: 0 <= k < |cs| ==> cs[k] in s
  {
    if |cs| == 0 then []
    else SmallIn(s, cs[..|cs| - 1], eps) + (if Small(s[cs[|cs| - 1]], eps) then [cs[|cs| - 1]] else [])
  }

  lemma {:induction false} SmallInMembers(s: Store, cs: seq<Cell>, eps: real)
    requires forall k :: 0 <= k < |cs| ==> cs[k] in s
    ensures forall x :: x in SmallIn(s, cs, eps) <==> x in cs && Small(s[x], eps)
  {
    if |cs| > 0 {
      SmallInMembers(s, cs[..|cs| - 1], eps);
      assert cs == cs[..|cs| - 1] + [cs[|cs| - 1]];
    }
  }

  lemma SmallInNext(s: Store, cs: seq<Cell>, i: nat, eps: real)
    requires forall k :: 0 <= k < |cs| ==> cs[k] in s
    requires i < |cs|
    ensures SmallIn(s, cs[..i + 1], eps) == SmallIn(s, cs[..i], eps) + (if Small(s[cs[i]], eps) then [cs[i]] else [])
  {
    assert cs[..i + 1][..i] == cs[..i];
  }

  /** The first loop of delete_zeros: the positions to erase, in ascending order. */
  method CollectSmall(s: Store, eps: real) returns (toDelete: seq<Cell>)
    ensures forall x :: x in Elems(toDelete) <==> x in s && Small(s[x], eps)
  {
    var cs := Ordered(s.Keys);
    toDelete := [];
    for i := 0 to |cs|
      invariant toDelete == SmallIn(s, cs[..i], eps)
    {
      SmallInNext(s, cs, i, eps);
      if Small(s[cs[i]], eps) {
        toDelete := toDelete + [cs[i]];
      }
    }
    assert cs[..|cs|] == cs;
    SmallInMembers(s, cs, eps);
  }

  /** The loop of unary operator- over the stored elements of the copy, in ascending order. */
  method NegateEach(s: Store) returns (t: Store)
    ensures t == Negated(s)
  {
    var cs := Ordered(s.Keys);
    t := NegateWalk(s, cs);
    NegateOrdered(s, cs);
  }

  /** The negation loop over the positions cs[0], cs[1], ... of `s`. */
  method NegateWalk(s: Store, cs: seq<Cell>) returns (t: Store)
    ensures t == NegateAll(s, cs, |cs|)
  {
    t := s;
    for i := 0 to |cs|
      invariant t == NegateAll(s, cs, i)
    {
      t := NegateAt(t, cs[i]);
    }
  }

  lemma NegateOrdered(s: Store, cs: seq<Cell>)
    requires cs == Ordered(s.Keys)
    ensures NegateAll(s, cs, |cs|) == Negated(s)
  {
    AscendingDistinct(cs);
    NegateAllNegates(s, cs);
  }

  /** The negation loop of unary operator- after visiting cs[0], ..., cs[n - 1]. */
  function NegateAll(s: Store, cs: seq<Cell>, n: nat): (r: Store)
    requires n <= |cs|
    ensures r.Keys == s.Keys
  {
    if n == 0 then s else NegateAt(NegateAll(s, cs, n - 1), cs[n - 1])
  }

  /** `res.map_[r][c] = -res.map_[r][c]` on a stored element. */
  function NegateAt(t: Store, x: Cell): (r: Store)
    ensures r.Keys == t.Keys
  {
    if x in t then t[x := -t[x]] else t
  }

  /** After visiting distinct positions, the element at cs[k] is negated once k has been visited. */
  lemma {:induction false} NegateAllRead(s: Store, cs: seq<Cell>, n: nat, k: nat)
    requires n <= |cs| && k < |cs| && cs[k] in s
    requires forall i, j :: 0 <= i < j < |cs| ==> cs[i] != cs[j]
    ensures NegateAll(s, cs, n)[cs[k]] == if k < n then -s[cs[k]] else s[cs[k]]
  {
    if n > 0 {
      NegateAllRead(s, cs, n - 1, k);
      if k != n - 1 {
        assert cs[k] != cs[n - 1];
      }
    }
  }

  /** Visiting every stored position once negates every stored element. */
  lemma NegateAllNegates(s: Store, cs: seq<Cell>)
    requires forall i, j :: 0 <= i < j < |cs| ==> cs[i] != cs[j]
    requires forall x :: x in s ==> x in cs
    ensures NegateAll(s, cs, |cs|) == Negated(s)
  {
    var t := NegateAll(s, cs, |cs|);
    forall x | x in s ensures t[x] == Negated(s)[x] {
      var k :| 0 <= k < |cs| && cs[k] == x;
      NegateAllRead(s, cs, |cs|, k);
    }
  }

  /**
    A store pruned zero or more times prunes like the original.
   */
  lemma PruneAgain(before: Store, s: Store, eps: real)
    requires PrunedOrNot(s, before, eps)
    ensures Prune(s, eps) == Prune(before, eps)
  {
    PruneTwice(before, eps);
  }

  lemma IdentityNext(s: Store, b: Store, cs: seq<Cell>, i: nat, eps: real)
    requires i < |cs|
    ensures AddAll(s, Moves(Identity, b, cs[..i + 1]), eps)
      == Sparse.AddTo(AddAll(s, Moves(Identity, b, cs[..i]), eps), cs[i], Get(b, cs[i]), eps)
  {
    var ws := Moves(Identity, b, cs[..i + 1]);
    assert cs[..i + 1][..i] == cs[..i];
    assert ws == Moves(Identity, b, cs[..i]) + [(cs[i], Get(b, cs[i]))];
    assert ws[..|ws| - 1] == Moves(Identity, b, cs[..i]);
  }

  class Matrix {
    /** map_, flattened. */
    var store: Store
    /** eps_: no modelled operation changes it. */
    const eps: real
    /** rows_num_ (no modelled operation changes it) and cols_num_ (operator*= does). */
    const rows: nat
    var cols: nat
    /** proxy_: the slices made from this matrix and not yet detached. */
    var proxies: set<Proxy>

    /** The shape is a pair of unsigned numbers and every element lies inside it. */
    ghost predicate Valid()
      reads this
    {
      rows < U32 && cols < U32 && InRange(store, rows, cols)
    }

    /** Every registered slice points back at this matrix. */
    ghost predicate Registered()
      reads this, proxies
    {
      forall p :: p in proxies ==> p.parent == this
    }

    /** Matrix(rows_num, cols_num, eps): no element is stored. */
    constructor(rows: nat, cols: nat, eps: real)
      requires rows < U32 && cols < U32
      ensures Valid() && Registered()
      ensures this.rows == rows && this.cols == cols && this.eps == eps
      ensures store == map[] && proxies == {}
    {
      this.rows := rows;
      this.cols := cols;
      this.eps := eps;
      store := map[];
      proxies := {};
    }

    /** Matrix(const Matrix&): the same shape, threshold and elements, no slices. */
    method Copy() returns (res: Matrix)
      requires Valid()
      ensures fresh(res) && res.Valid() && res.Registered()
      ensures res.rows == rows && res.cols == cols && res.eps == eps
      ensures res.store == store && res.proxies == {}
    {
      res := new Matrix(rows, cols, eps);
      res.store := store;
    }

    /**
      make_unary: position by position, row by row, a 0 when is_zero(eps)
      and then a 1 on the diagonal when eps < 1, stored directly.
     */
    static method MakeUnary(rows: nat, cols: nat, eps: real) returns (res: Matrix)
      requires rows < U32 && cols < U32 && GridFits(rows, cols)
      ensures fresh(res) && res.Valid() && res.Registered()
      ensures res.rows == rows && res.cols == cols && res.eps == eps && res.proxies == {}
      ensures res.store == FactoryStore(Unary, rows, cols, eps)
    {
      var m: Store := map[];
      FactoryStart(Unary, rows, cols, eps);
      for i := 1 to rows + 1
        invariant m == FactoryUpTo(Unary, rows, cols, eps, i, 0)
      {
        for j := 1 to cols + 1
          invariant m == FactoryUpTo(Unary, rows, cols, eps, i, j - 1)
        {
          FactoryNext(Unary, rows, cols, eps, i, j);
          if IsZero(eps) {
            m := m[(i, j) := 0];
          }
          if i == j && eps < 1.0 {
            m := m[(i, j) := 1];
          }
        }
        FactoryRowDone(Unary, rows, cols, eps, i);
      }
      FactoryDone(Unary, rows, cols, eps);
      FactoryReads(Unary, rows, cols, eps);
      res := new Matrix(rows, cols, eps);
      res.store := m;
    }

    /** make_zeros: when is_zero(eps), a stored 0 at every position; otherwise nothing. */
    static method MakeZeros(rows: nat, cols: nat, eps: real) returns (res: Matrix)
      requires rows < U32 && cols < U32 && (IsZero(eps) ==> GridFits(rows, cols))
      ensures fresh(res) && res.Valid() && res.Registered()
      ensures res.rows == rows && res.cols == cols && res.eps == eps && res.proxies == {}
      ensures res.store == FactoryStore(Zeros, rows, cols, eps)
    {
      res := new Matrix(rows, cols, eps);
      var m: Store := map[];
      if IsZero(eps) {
        m := FillGrid(Zeros, rows, cols, eps, 0);
      } else {
        FactoryNothing(Zeros, rows, cols, eps);
      }
      FactoryReads(Zeros, rows, cols, eps);
      res.store := m;
    }

    /** make_ones: when eps < 1, a stored 1 at every position; otherwise nothing. */
    static method MakeOnes(rows: nat, cols: nat, eps: real) returns (res: Matrix)
      requires rows < U32 && cols < U32 && (eps < 1.0 ==> GridFits(rows, cols))
      ensures fresh(res) && res.Valid() && res.Registered()
      ensures res.rows == rows && res.cols == cols && res.eps == eps && res.proxies == {}
      ensures res.store == FactoryStore(Ones, rows, cols, eps)
    {
      res := new Matrix(rows, cols, eps);
      var m: Store := map[];
      if eps < 1.0 {
        m := FillGrid(Ones, rows, cols, eps, 1);
      } else {
        FactoryNothing(Ones, rows, cols, eps);
      }
      FactoryReads(Ones, rows, cols, eps);
      res.store := m;
    }

    /** The nested loops of make_zeros and make_ones: `v` at every position, row by row. */
    static method FillGrid(kind: Kind, rows: nat, cols: nat, eps: real, v: int) returns (m: Store)
      requires GridFits(rows, cols)
      requires forall x :: Writes(kind, x, eps) && Value(kind, x, eps) == v
      ensures m == FactoryStore(kind, rows, cols, eps)
    {
      m := map[];
      FactoryStart(kind, rows, cols, eps);
      for i := 1 to rows + 1
        invariant m == FactoryUpTo(kind, rows, cols, eps, i, 0)
      {
        for j := 1 to cols + 1
          invariant m == FactoryUpTo(kind, rows, cols, eps, i, j - 1)
        {
          FactoryNext(kind, rows, cols, eps, i, j);
          m := m[(i, j) := v];
        }
        FactoryRowDone(kind, rows, cols, eps, i);
      }
      FactoryDone(kind, rows, cols, eps);
    }

    /**
      delete_zeros: collect the positions of the elements below eps in
      ascending order, then erase them.
     */
    method DeleteZeros()
      requires Valid()
      modifies this
      ensures Valid()
      ensures store == Prune(old(store), eps)
      ensures cols == old(cols) && proxies == old(proxies)
    {
      ghost var s := store;
      var toDelete := CollectSmall(store, eps);
      for j := 0 to |toDelete|
        invariant store == s - Elems(toDelete[..j])
        invariant cols == old(cols) && proxies == old(proxies)
      {
        ElemsSnoc(toDelete[..j + 1]);
        assert toDelete[..j + 1][..j] == toDelete[..j];
        store := store - {toDelete[j]};
      }
      assert toDelete[..|toDelete|] == toDelete;
      EraseSmall(s, Elems(toDelete), eps);
    }

    /**
      operator(): outside the shape it throws invalid_index_error and
      changes nothing; otherwise it prunes and reads the element, 0 when
      none is stored.
     */
    method Read(r: nat, c: nat) returns (res: Result<int, MatrixError>)
      requires Valid()
      modifies this
      ensures Valid()
      ensures !InShape((r, c), rows, cols) ==> res == Failure(InvalidIndex) && store == old(store)
      ensures InShape((r, c), rows, cols) ==>
        res == Success(Get(Prune(old(store), eps), (r, c))) && store == Prune(old(store), eps)
      ensures cols == old(cols) && proxies == old(proxies)
    {
      if r < 1 || r > rows || c < 1 || c > cols {
        return Failure(InvalidIndex);
      }
      DeleteZeros();
      if (r, c) !in store {
        return Success(0);
      }
      return Success(store[(r, c)]);
    }

    /**
      operator[] for a pair followed by nothing (`m[x];`): outside the
      shape it throws; otherwise it prunes and makes sure a (possibly 0)
      element is stored at the position.
     */
    method Touch(r: nat, c: nat) returns (res: Result<(), MatrixError>)
      requires Valid()
      modifies this
      ensures Valid()
      ensures res.Success? <==> InShape((r, c), rows, cols)
      ensures res.Failure? ==> res.error == InvalidIndex && store == old(store)
      ensures res.Success? ==> store == Sparse.Touch(old(store), (r, c), eps)
      ensures cols == old(cols) && proxies == old(proxies)
    {
      if r < 1 || r > rows || c < 1 || c > cols {
        return Failure(InvalidIndex);
      }
      DeleteZeros();
      if (r, c) !in store {
        store := store[(r, c) := 0];
      }
      return Success(());
    }

    /** `m[{r, c}] = v`. */
    method Assign(r: nat, c: nat, v: int) returns (res: Result<(), MatrixError>)
      requires Valid()
      modifies this
      ensures Valid()
      ensures res.Success? <==> InShape((r, c), rows, cols)
      ensures res.Failure? ==> res.error == InvalidIndex && store == old(store)
      ensures res.Success? ==> store == Sparse.Assign(old(store), (r, c), v, eps)
      ensures cols == old(cols) && proxies == old(proxies)
    {
      res := Touch(r, c);
      if res.Success? {
        store := store[(r, c) := v];
      }
    }

    /** `m[{r, c}] += v`. */
    method AddTo(r: nat, c: nat, v: int) returns (res: Result<(), MatrixError>)
      requires Valid()
      modifies this
      ensures Valid()
      ensures res.Success? <==> InShape((r, c), rows, cols)
      ensures res.Failure? ==> res.error == InvalidIndex && store == old(store)
      ensures res.Success? ==> store == Sparse.AddTo(old(store), (r, c), v, eps)
      ensures cols == old(cols) && proxies == old(proxies)
    {
      res := Touch(r, c);
      if res.Success? {
        store := store[(r, c) := store[(r, c)] + v];
      }
    }

    /** get_map: prunes, then hands out the elements. */
    method GetMap() returns (m: Store)
      requires Valid()
      modifies this
      ensures Valid()
      ensures m == store && store == Prune(old(store), eps)
      ensures cols == old(cols) && proxies == old(proxies)
    {
      DeleteZeros();
      m := store;
    }

    /** The counting loop of operator==: one per stored element. */
    method CountEntries() returns (n: nat)
      ensures n == |store|
    {
      var cs := Ordered(store.Keys);
      n := 0;
      for i := 0 to |cs|
        invariant n == |Elems(cs[..i])|
      {
        ElemsNext(cs, i);
        n := n + 1;
      }
      assert cs[..|cs|] == cs;
      assert Elems(cs) == store.Keys;
    }

    /**
      operator==: prune both sides and count their elements; different
      counts compare unequal; otherwise every element of this matrix, in
      ascending order, is compared with a read of `other`.
     */
    method Equals(other: Matrix) returns (res: Result<bool, MatrixError>)
      requires Valid() && other.Valid()
      modifies this, other
      ensures Valid() && other.Valid()
      ensures store == Prune(old(store), eps)
      ensures other.store == Prune(old(other.store), other.eps)
      ensures res == CompareStores(Prune(old(store), eps), Prune(old(other.store), other.eps), other.rows, other.cols)
      ensures cols == old(cols) && proxies == old(proxies)
      ensures other.cols == old(other.cols)
      ensures other.proxies == old(other.proxies)
    {
      ghost var l0, r0 := Prune(store, eps), Prune(other.store, other.eps);
      DeleteZeros();
      var lsize := CountEntries();
      other.DeleteZeros();
      var rsize := other.CountEntries();
      PruneTwice(old(store), eps);
      PruneTwice(old(other.store), other.eps);
      assert store == l0 && other.store == r0;
      if lsize != rsize {
        return Success(false);
      }
      res := other.CompareWith(store);
    }

    /**
      The comparison loop of operator==, run on the right-hand side: the
      elements of `l` in ascending order against reads of this matrix,
      already pruned.
     */
    method CompareWith(l: Store) returns (res: Result<bool, MatrixError>)
      requires Valid() && Prune(store, eps) == store
      modifies this
      ensures Valid() && store == old(store)
      ensures cols == old(cols) && proxies == old(proxies)
      ensures res == CompareCells(l, store, rows, cols, Ordered(l.Keys), 0)
    {
      var cs := Ordered(l.Keys);
      ghost var want := CompareCells(l, store, rows, cols, cs, 0);
      for i := 0 to |cs|
        invariant Valid() && store == old(store)
        invariant cols == old(cols) && proxies == old(proxies)
        invariant want == CompareCells(l, store, rows, cols, cs, i)
      {
        var x := cs[i];
        assert x in l;
        var v := Read(x.0, x.1);
        if v.Failure? {
          return Failure(v.error);
        }
        if v.value != l[x] {
          return Success(false);
        }
      }
      return Success(true);
    }

    /**
      The loop of operator+=: `m[x] += b[x]` through operator[] for every
      stored position of `b`, in ascending order.
     */
    method AddEach(b: Store)
      requires Valid() && InRange(b, rows, cols)
      modifies this
      ensures Valid()
      ensures store == AddAll(old(store), Moves(Identity, b, Ordered(b.Keys)), eps)
      ensures cols == old(cols) && proxies == old(proxies)
    {
      var cs := Ordered(b.Keys);
      for i := 0 to |cs|
        invariant Valid()
        invariant cols == old(cols) && proxies == old(proxies)
        invariant store == AddAll(old(store), Moves(Identity, b, cs[..i]), eps)
      {
        var x := cs[i];
        assert x in cs;
        IdentityNext(old(store), b, cs, i, eps);
        var done := AddTo(x.0, x.1, b[x]);
      }
      assert cs[..|cs|] == cs;
    }

    /**
      operator+=: the shapes must agree; then each element of the pruned
      right-hand side, in ascending order, is added through operator[],
      and the result is pruned.
     */
    method AddAssign(other: Matrix) returns (res: Result<(), MatrixError>)
      requires Valid() && other.Valid()
      modifies this, other
      ensures Valid() && other.Valid()
      ensures res.Success? <==> rows == other.rows && old(cols) == old(other.cols)
      ensures res.Failure? ==> res.error == SizeDifferentiation && store == old(store) && other.store == old(other.store)
      ensures res.Success? ==>
        store == Prune(Added(Prune(old(store), eps), Prune(old(other.store), other.eps)), eps)
      ensures res.Success? && other != this ==> other.store == Prune(old(other.store), other.eps)
      ensures cols == old(cols) && proxies == old(proxies)
      ensures other.cols == old(other.cols)
      ensures other.proxies == old(other.proxies)
    {
      if rows != other.rows || cols != other.cols {
        return Failure(SizeDifferentiation);
      }
      var b := other.GetMap();
      ghost var s := store;
      AddEach(b);
      DeleteZeros();
      CopyIncrements(b);
      PrunedAddAll(s, Moves(Identity, b, Ordered(b.Keys)), b, eps);
      PruneAgain(old(store), s, eps);
      return Success(());
    }

    /**
      operator-=: operator+= with the negated copy of `other`, which is
      pruned in the copy only.
     */
    method SubAssign(other: Matrix) returns (res: Result<(), MatrixError>)
      requires Valid() && other.Valid()
      modifies this
      ensures Valid()
      ensures res.Success? <==> rows == other.rows && cols == other.cols
      ensures res.Failure? ==> res.error == SizeDifferentiation && store == old(store)
      ensures res.Success? ==>
        store == Prune(Added(Prune(old(store), eps), Prune(Negated(old(other.store)), other.eps)), eps)
      ensures cols == old(cols) && proxies == old(proxies)
    {
      var neg := other.Negate();
      res := AddAssign(neg);
    }

    /**
      operator~: a fresh cols x rows matrix, written through operator[]
      with element (c, r) for every stored element (r, c), visited in
      ascending order without pruning first.
     */
    method Transpose() returns (res: Matrix)
      requires Valid()
      ensures fresh(res) && res.Valid() && res.Registered()
      ensures res.rows == cols && res.cols == rows && res.eps == eps && res.proxies == {}
      ensures res.store == AssignAll(map[], Moves(Swap, store, Ordered(store.Keys)), eps)
      ensures Prune(res.store, eps) == Prune(MovedStore(Swap, store, store.Keys), eps)
    {
      res := new Matrix(cols, rows, eps);
      var cs := Ordered(store.Keys);
      for i := 0 to |cs|
        invariant res.Valid() && res.cols == rows && res.proxies == {}
        invariant res.store == AssignAll(map[], Moves(Swap, store, cs[..i]), eps)
      {
        var x := cs[i];
        SwapNext(store, cs, i, eps);
        var done := res.Assign(x.1, x.0, store[x]);
      }
      assert cs[..|cs|] == cs;
      MovesRead(Swap, store, cs, eps);
      OrderedElems(store.Keys);
    }

    /**
      Unary operator-: a copy whose stored elements are then negated in
      place, in ascending order; nothing is pruned.
     */
    method Negate() returns (res: Matrix)
      requires Valid()
      ensures fresh(res) && res.Valid() && res.Registered()
      ensures res.rows == rows && res.cols == cols && res.eps == eps && res.proxies == {}
      ensures res.store == Negated(store)
    {
      res := Copy();
      res.store := NegateEach(res.store);
    }

    /**
      operator*=: the columns must match the other matrix's rows; every
      position (i, j) of a fresh rows x other.cols matrix, row by row, is
      written through operator[] with the sum of products of reads (each
      read prunes its matrix), and this matrix takes over its elements and
      shape.
     */
    method MulAssign(other: Matrix) returns (res: Result<(), MatrixError>)
      requires Valid() && other.Valid()
      requires CountersFit(rows, cols, other.cols)
      modifies this, other
      ensures Valid() && other.Valid()
      ensures res.Success? <==> old(cols) == other.rows
      ensures res.Failure? ==> res.error == Multiplication && store == old(store) && cols == old(cols)
      ensures res.Success? ==> cols == old(other.cols)
      ensures res.Success? ==>
        store == AssignAll(map[], Moves(Product(Prune(old(other.store), other.eps), old(cols)),
                                        Prune(old(store), eps), RowMajor(rows, cols)), eps)
      ensures res.Success? ==>
        Prune(store, eps) == Prune(MovedStore(Product(Prune(old(other.store), other.eps), old(cols)),
                                              Prune(old(store), eps), Elems(RowMajor(rows, cols))), eps)
      ensures other != this ==> PrunedOrNot(other.store, old(other.store), other.eps)
      ensures proxies == old(proxies)
      ensures other != this ==> other.cols == old(other.cols)
      ensures other.proxies == old(other.proxies)
    {
      if cols != other.rows {
        return Failure(Multiplication);
      }
      ghost var m, p := Product(Prune(other.store, other.eps), cols), Prune(store, eps);
      var product := Multiply(other);
      store := product.store;
      cols := product.cols;
      MovesRead(m, p, RowMajor(rows, cols), eps);
      return Success(());
    }

    /** The loops of operator*=: the product, written position by position into a fresh matrix. */
    method Multiply(other: Matrix) returns (product: Matrix)
      requires Valid() && other.Valid() && cols == other.rows
      requires CountersFit(rows, cols, other.cols)
      modifies this, other
      ensures fresh(product) && product.Valid()
      ensures product.rows == rows && product.cols == other.cols && product.eps == eps
      ensures product.store == AssignAll(map[], Moves(Product(Prune(old(other.store), other.eps), cols),
                                                      Prune(old(store), eps), RowMajor(rows, other.cols)), eps)
      ensures Valid() && other.Valid()
      ensures PrunedOrNot(store, old(store), eps) && PrunedOrNot(other.store, old(other.store), other.eps)
      ensures cols == old(cols) && proxies == old(proxies)
      ensures other.cols == old(other.cols)
      ensures other.proxies == old(other.proxies)
    {
      ghost var s0, o0 := store, other.store;
      ghost var p, q := Prune(store, eps), Prune(other.store, other.eps);
      product := new Matrix(rows, other.cols, eps);
      ProductDone(p, q, cols, 0, other.cols, eps);
      FillRows(other, product, s0, o0);
      ProductDone(p, q, cols, rows, other.cols, eps);
    }

    /** The outer loop of operator*=, over the rows 1 .. rows of the product. */
    method FillRows(other: Matrix, product: Matrix, ghost s0: Store, ghost o0: Store)
      requires Valid() && other.Valid() && product.Valid() && cols == other.rows
      requires product != this && product != other
      requires product.rows == rows && product.cols == other.cols
      requires PrunedOrNot(store, s0, eps) && PrunedOrNot(other.store, o0, other.eps)
      requires product.store == ProductSoFar(Prune(s0, eps), Prune(o0, other.eps), cols, 0, other.cols, 0, product.eps)
      modifies this, other, product
      ensures Valid() && other.Valid() && product.Valid()
      ensures PrunedOrNot(store, s0, eps) && PrunedOrNot(other.store, o0, other.eps)
      ensures product.store == ProductSoFar(Prune(s0, eps), Prune(o0, other.eps), cols, rows, other.cols, 0, product.eps)
      ensures cols == old(cols) && proxies == old(proxies)
      ensures other.cols == old(other.cols) && other.proxies == old(other.proxies)
      ensures product.cols == old(product.cols)
    {
      ghost var p, q := Prune(s0, eps), Prune(o0, other.eps);
      var n, oc := cols, other.cols;
      for i := 1 to rows + 1
        invariant Valid() && other.Valid() && product.Valid() && product.cols == oc
        invariant product.store == ProductSoFar(p, q, n, i - 1, oc, 0, product.eps)
        invariant cols == n && proxies == old(proxies)
        invariant other.cols == oc && other.proxies == old(other.proxies)
        invariant PrunedOrNot(store, s0, eps) && PrunedOrNot(other.store, o0, other.eps)
      {
        FillRow(other, product, i, s0, o0);
      }
    }

    /** The loop of operator*= over the positions (i, 1), ..., (i, other.cols) of the product. */
    method FillRow(other: Matrix, product: Matrix, i: nat, ghost s0: Store, ghost o0: Store)
      requires Valid() && other.Valid() && product.Valid() && cols == other.rows
      requires product != this && product != other
      requires 1 <= i <= rows && product.rows == rows && product.cols == other.cols
      requires PrunedOrNot(store, s0, eps) && PrunedOrNot(other.store, o0, other.eps)
      requires product.store == ProductSoFar(Prune(s0, eps), Prune(o0, other.eps), cols, i - 1, other.cols, 0, product.eps)
      modifies this, other, product
      ensures Valid() && other.Valid() && product.Valid()
      ensures PrunedOrNot(store, s0, eps) && PrunedOrNot(other.store, o0, other.eps)
      ensures product.store == ProductSoFar(Prune(s0, eps), Prune(o0, other.eps), cols, i, other.cols, 0, product.eps)
      ensures cols == old(cols) && proxies == old(proxies)
      ensures other.cols == old(other.cols) && other.proxies == old(other.proxies)
      ensures product.cols == old(product.cols) && product.proxies == old(product.proxies)
    {
      ghost var p, q := Prune(s0, eps), Prune(o0, other.eps);
      var n, oc := cols, other.cols;
      for j := 1 to oc + 1
        invariant Valid() && other.Valid() && product.Valid()
        invariant product.store == ProductSoFar(p, q, n, i - 1, oc, j - 1, product.eps)
        invariant cols == n && proxies == old(proxies)
        invariant other.cols == oc && other.proxies == old(other.proxies)
        invariant product.cols == oc && product.proxies == old(product.proxies)
        invariant PrunedOrNot(store, s0, eps) && PrunedOrNot(other.store, o0, other.eps)
      {
        var cur := DotAt(other, i, j, s0, o0);
        product.WriteProduct(i, j, cur, p, q, n);
      }
      ProductRowDone(p, q, n, i - 1, oc, product.eps);
    }

    /**
      The writes of Matrix(const Matrix_proxy&, eps) into this fresh matrix
      of the slice's size, for the parent's elements `m` visited in the
      order `cs`: those inside the window, renumbered from (1, 1).
     */
    method WriteWindow(m: Store, cs: seq<Cell>, r0: nat, c0: nat)
      requires Valid() && store == map[]
      requires forall k :: 0 <= k < |cs| ==> cs[k] in m
      modifies this
      ensures Valid() && store == AssignAll(map[], Moves(Window(r0, c0, rows, cols), m, cs), eps)
      ensures cols == old(cols) && proxies == old(proxies)
    {
      var h, w := rows, cols;
      for i := 0 to |cs|
        invariant Valid() && cols == w && proxies == old(proxies)
        invariant store == AssignAll(map[], Moves(Window(r0, c0, h, w), m, cs[..i]), eps)
      {
        WindowAt(m, cs, i, r0, c0);
      }
      assert cs[..|cs|] == cs;
    }

    /** One pass of the window copy: the write for cs[i], if it lies in the window. */
    method WindowAt(m: Store, cs: seq<Cell>, i: nat, r0: nat, c0: nat)
      requires Valid() && i < |cs| && cs[i] in m
      requires store == AssignAll(map[], Moves(Window(r0, c0, rows, cols), m, cs[..i]), eps)
      modifies this
      ensures Valid() && store == AssignAll(map[], Moves(Window(r0, c0, rows, cols), m, cs[..i + 1]), eps)
      ensures cols == old(cols) && proxies == old(proxies)
    {
      var x: Cell := cs[i];
      ghost var before := store;
      if InWindow(x, r0, c0, rows, cols) {
        var done := Assign(x.0 - r0, x.1 - c0, m[x]);
      }
      WindowStep(m, cs, i, r0, c0, rows, cols, eps, before, store);
    }

    /** `res[{i, j}] = sum` of operator*=, on the product being filled. */
    method WriteProduct(i: nat, j: nat, v: int, ghost a: Store, ghost b: Store, ghost n: nat)
      requires Valid() && 1 <= i <= rows && 1 <= j <= cols
      requires store == ProductSoFar(a, b, n, i - 1, cols, j - 1, eps)
      requires v == Dot(a, b, i, j, n)
      modifies this
      ensures Valid() && store == ProductSoFar(a, b, n, i - 1, cols, j, eps)
      ensures cols == old(cols) && proxies == old(proxies)
    {
      ghost var before := store;
      var done := Assign(i, j, v);
      ProductSoFarNext(a, b, n, i - 1, cols, j, eps, before, store, v);
    }

    /**
      The innermost loop of operator*=: the sum over s of this(i, s) *
      other(s, j); the reads prune, so both matrices stay pruned or not.
     */
    method DotAt(other: Matrix, i: nat, j: nat, ghost s0: Store, ghost o0: Store) returns (cur: int)
      requires Valid() && other.Valid() && cols == other.rows
      requires 1 <= i <= rows && 1 <= j <= other.cols
      requires PrunedOrNot(store, s0, eps) && PrunedOrNot(other.store, o0, other.eps)
      modifies this, other
      ensures Valid() && other.Valid()
      ensures PrunedOrNot(store, s0, eps) && PrunedOrNot(other.store, o0, other.eps)
      ensures cur == Dot(Prune(s0, eps), Prune(o0, other.eps), i, j, cols)
      ensures cols == old(cols) && proxies == old(proxies)
      ensures other.cols == old(other.cols)
      ensures other.proxies == old(other.proxies)
    {
      cur := 0;
      for s := 1 to cols + 1
        invariant Valid() && other.Valid()
        invariant cols == old(cols) && proxies == old(proxies)
        invariant other.cols == old(other.cols) && other.proxies == old(other.proxies)
        invariant PrunedOrNot(store, s0, eps) && PrunedOrNot(other.store, o0, other.eps)
        invariant cur == Dot(Prune(s0, eps), Prune(o0, other.eps), i, j, s - 1)
      {
        PruneAgain(s0, store, eps);
        PruneAgain(o0, other.store, other.eps);
        var x := Read(i, s);
        PruneAgain(o0, other.store, other.eps);
        var y := other.Read(s, j);
        cur := cur + x.value * y.value;
      }
    }

    /**
      operator[](Matrix_coords): resolve the sentinels to the edges, refuse
      a reversed or out-of-range window, and register a fresh slice.
     */
    method Slice(c: Coords) returns (res: Result<Proxy, MatrixError>)
      requires Valid() && Registered() && |c.index| == 4 && |c.isAll| == 4
      modifies this
      ensures Valid() && Registered()
      ensures store == old(store) && cols == old(cols)
      ensures res.Success? <==> WindowFits(Resolved(c, rows, cols), rows, cols)
      ensures res.Failure? ==> res.error == InvalidMatrixCoords && proxies == old(proxies)
      ensures res.Success? ==> fresh(res.value) && res.value.parent == this && res.value.Valid()
      ensures res.Success? ==> res.value.Bounds() == Resolved(c, rows, cols)
      ensures res.Success? ==> proxies == old(proxies) + {res.value}
    {
      var startRow := if c.isAll[0] then 1 else c.index[0];
      var endRow := if c.isAll[2] then rows else c.index[2];
      var startCol := if c.isAll[1] then 1 else c.index[1];
      var endCol := if c.isAll[3] then cols else c.index[3];
      if startRow > endRow || startCol > endCol {
        return Failure(InvalidMatrixCoords);
      }
      if startRow < 1 || endRow > rows || startCol < 1 || endCol > cols {
        return Failure(InvalidMatrixCoords);
      }
      var p := new Proxy(this, startRow, endRow, startCol, endCol);
      proxies := proxies + {p};
      return Success(p);
    }

    /** operator[](Matrix_row_coord): the slice (r, -1, r, -1), the whole row r. */
    method SliceRow(rc: RowCoord) returns (res: Result<Proxy, MatrixError>)
      requires Valid() && Registered() && rc.rowNum < U32
      modifies this
      ensures Valid() && Registered()
      ensures store == old(store) && cols == old(cols)
      ensures res.Success? <==> 1 <= rc.rowNum <= rows && 1 <= cols
      ensures res.Failure? ==> res.error == InvalidMatrixCoords && proxies == old(proxies)
      ensures res.Success? ==> fresh(res.value) && res.value.parent == this
      ensures res.Success? ==> res.value.Bounds() == (rc.rowNum, 1, rc.rowNum, cols)
      ensures res.Success? ==> proxies == old(proxies) + {res.value}
    {
      var c := RowSlice(rc);
      res := Slice(c.value);
    }

    /** operator[](Matrix_col_coord): the slice (-1, c, -1, c), the whole column c. */
    method SliceCol(cc: ColCoord) returns (res: Result<Proxy, MatrixError>)
      requires Valid() && Registered() && cc.colNum < U32
      modifies this
      ensures Valid() && Registered()
      ensures store == old(store) && cols == old(cols)
      ensures res.Success? <==> 1 <= rows && 1 <= cc.colNum <= cols
      ensures res.Failure? ==> res.error == InvalidMatrixCoords && proxies == old(proxies)
      ensures res.Success? ==> fresh(res.value) && res.value.parent == this
      ensures res.Success? ==> res.value.Bounds() == (1, cc.colNum, rows, cc.colNum)
      ensures res.Success? ==> proxies == old(proxies) + {res.value}
    {
      var c := ColSlice(cc);
      res := Slice(c.value);
    }

    /** detach_proxy: forget a slice. */
    method DetachProxy(p: Proxy)
      modifies this
      ensures proxies == old(proxies) - {p}
      ensures store == old(store) && cols == old(cols)
    {
      proxies := proxies - {p};
    }

    /** ~Matrix: every registered slice loses its parent. */
    method Destroy()
      modifies proxies
      ensures forall p :: p in proxies ==> p.parent == null
    {
      var ps := proxies;
      while ps != {}
        invariant ps <= proxies
        invariant forall p :: p in proxies && p !in ps ==> p.parent == null
        decreases |ps|
      {
        var p :| p in ps;
        p.parent := null;
        ps := ps - {p};
      }
    }
  }

  /**
    Matrix(map, rows_num, cols_num, eps): throws invalid_index_error at
    the first stored position outside the shape; otherwise stores the map
    and prunes it.
   */
  method FromMap(m: Store, rows: nat, cols: nat, eps: real) returns (res: Result<Matrix, MatrixError>)
    requires rows < U32 && cols < U32
    ensures res.Success? <==> InRange(m, rows, cols)
    ensures res.Failure? ==> res.error == InvalidIndex
    ensures res.Success? ==> fresh(res.value) && res.value.Valid() && res.value.Registered()
    ensures res.Success? ==> res.value.rows == rows && res.value.cols == cols && res.value.eps == eps
    ensures res.Success? ==> res.value.store == Prune(m, eps) && res.value.proxies == {}
  {
    var cs := Ordered(m.Keys);
    for i := 0 to |cs|
      invariant forall k :: 0 <= k < i ==> InShape(cs[k], rows, cols)
    {
      var x := cs[i];
      assert x in cs;
      if x.0 < 1 || x.0 > rows {
        return Failure(InvalidIndex);
      }
      if x.1 < 1 || x.1 > cols {
        return Failure(InvalidIndex);
      }
    }
    assert InRange(m, rows, cols) by {
      forall x | x in m ensures InShape(x, rows, cols) {
        assert x in cs;
      }
    }
    var matrix := new Matrix(rows, cols, eps);
    matrix.store := m;
    matrix.DeleteZeros();
    return Success(matrix);
  }

  /** The bounds operator[](Matrix_coords) resolves: a sentinel becomes 1, rows or cols. */
  function Resolved(c: Coords, rows: nat, cols: nat): (nat, nat, nat, nat)
    requires |c.index| == 4 && |c.isAll| == 4
  {
    (if c.isAll[0] then 1 else c.index[0], if c.isAll[1] then 1 else c.index[1],
     if c.isAll[2] then rows else c.index[2], if c.isAll[3] then cols else c.index[3])
  }

  /** A window (first row, first column, last row, last column) that slicing accepts. */
  predicate WindowFits(b: (nat, nat, nat, nat), rows: nat, cols: nat) {
    1 <= b.0 <= b.2 <= rows && 1 <= b.1 <= b.3 <= cols
  }

  /**
    operator+(Matrix lhs, rhs): operator+= on the by-value copy of lhs,
    whose result is returned by value.
   */
  method Plus(lhs: Matrix, rhs: Matrix) returns (res: Result<Matrix, MatrixError>)
    requires lhs.Valid() && rhs.Valid()
    modifies rhs
    ensures rhs.Valid() && rhs.cols == old(rhs.cols) && rhs.proxies == old(rhs.proxies)
    ensures res.Success? <==> lhs.rows == rhs.rows && old(lhs.cols) == old(rhs.cols)
    ensures res.Failure? ==> res.error == SizeDifferentiation && rhs.store == old(rhs.store)
    ensures res.Success? ==> fresh(res.value) && res.value.Valid() && res.value.proxies == {}
    ensures res.Success? ==> res.value.rows == lhs.rows && res.value.cols == old(lhs.cols) && res.value.eps == lhs.eps
    ensures res.Success? ==>
      res.value.store == Prune(Added(Prune(old(lhs.store), lhs.eps), Prune(old(rhs.store), rhs.eps)), lhs.eps)
    ensures res.Success? ==> rhs.store == Prune(old(rhs.store), rhs.eps)
  {
    var copy := lhs.Copy();
    var done := copy.AddAssign(rhs);
    if done.Failure? {
      return Failure(done.error);
    }
    var out := copy.Copy();
    return Success(out);
  }

  /** operator-(Matrix lhs, rhs): operator-= on the by-value copy of lhs. */
  method Minus(lhs: Matrix, rhs: Matrix) returns (res: Result<Matrix, MatrixError>)
    requires lhs.Valid() && rhs.Valid()
    ensures res.Success? <==> lhs.rows == rhs.rows && lhs.cols == rhs.cols
    ensures res.Failure? ==> res.error == SizeDifferentiation
    ensures res.Success? ==> fresh(res.value) && res.value.Valid() && res.value.proxies == {}
    ensures res.Success? ==> res.value.rows == lhs.rows && res.value.cols == lhs.cols && res.value.eps == lhs.eps
    ensures res.Success? ==>
      res.value.store == Prune(Added(Prune(lhs.store, lhs.eps), Prune(Negated(rhs.store), rhs.eps)), lhs.eps)
  {
    var copy := lhs.Copy();
    var done := copy.SubAssign(rhs);
    if done.Failure? {
      return Failure(done.error);
    }
    var out := copy.Copy();
    return Success(out);
  }

  /** operator*(Matrix lhs, rhs): operator*= on the by-value copy of lhs. */
  method Times(lhs: Matrix, rhs: Matrix) returns (res: Result<Matrix, MatrixError>)
    requires lhs.Valid() && rhs.Valid() && CountersFit(lhs.rows, lhs.cols, rhs.cols)
    modifies rhs
    ensures rhs.Valid() && rhs.cols == old(rhs.cols) && rhs.proxies == old(rhs.proxies)
    ensures PrunedOrNot(rhs.store, old(rhs.store), rhs.eps)
    ensures res.Success? <==> old(lhs.cols) == rhs.rows
    ensures res.Failure? ==> res.error == Multiplication
    ensures res.Success? ==> fresh(res.value) && res.value.Valid() && res.value.proxies == {}
    ensures res.Success? ==> res.value.rows == lhs.rows && res.value.cols == old(rhs.cols) && res.value.eps == lhs.eps
    ensures res.Success? ==>
      Prune(res.value.store, lhs.eps) == Prune(MovedStore(Product(Prune(old(rhs.store), rhs.eps), old(lhs.cols)),
                                                        Prune(old(lhs.store), lhs.eps), Elems(RowMajor(lhs.rows, old(rhs.cols)))), lhs.eps)
  {
    var copy := lhs.Copy();
    var done := copy.MulAssign(rhs);
    if done.Failure? {
      return Failure(done.error);
    }
    var out := copy.Copy();
    return Success(out);
  }

  /**
    Matrix(const Matrix_proxy&, eps): a matrix of the slice's size, written
    through operator[] with the parent's (pruned) elements inside the
    window, renumbered from (1, 1), in ascending order.
   */
  method FromProxy(pr: Proxy, eps: real) returns (res: Matrix)
    requires pr.Valid() && pr.parent != null && pr.parent.Valid()
    modifies pr.parent
    ensures pr.parent == old(pr.parent) && pr.parent.Valid()
    ensures pr.parent.store == Prune(old(pr.parent.store), pr.parent.eps)
    ensures pr.parent.cols == old(pr.parent.cols) && pr.parent.proxies == old(pr.parent.proxies)
    ensures fresh(res) && res.Valid() && res.Registered() && res.proxies == {}
    ensures res.rows == pr.Height() && res.cols == pr.Width() && res.eps == eps
    ensures res.store == AssignAll(map[], Moves(Window(pr.startRow - 1, pr.startCol - 1, pr.Height(), pr.Width()),
                                                pr.parent.store, Ordered(pr.parent.store.Keys)), eps)
    ensures Prune(res.store, eps) ==
      Prune(MovedStore(Window(pr.startRow - 1, pr.startCol - 1, pr.Height(), pr.Width()), pr.parent.store, pr.parent.store.Keys), eps)
  {
    var par := pr.parent;
    var m := par.GetMap();
    var r0, c0, h, w := pr.startRow - 1, pr.startCol - 1, pr.Height(), pr.Width();
    res := CopyWindow(m, r0, c0, h, w, eps);
    assert res.store == AssignAll(map[], Moves(Window(r0, c0, h, w), m, Ordered(m.Keys)), eps);
    assert Window(r0, c0, h, w) == Window(pr.startRow - 1, pr.startCol - 1, pr.Height(), pr.Width());
    assert m == pr.parent.store;
  }

  /** The loop of Matrix(const Matrix_proxy&, eps) over the parent's elements `m`, in ascending order. */
  method CopyWindow(m: Store, r0: nat, c0: nat, h: nat, w: nat, eps: real) returns (res: Matrix)
    requires h < U32 && w < U32
    ensures fresh(res) && res.Valid() && res.Registered() && res.proxies == {}
    ensures res.rows == h && res.cols == w && res.eps == eps
    ensures res.store == AssignAll(map[], Moves(Window(r0, c0, h, w), m, Ordered(m.Keys)), eps)
    ensures Prune(res.store, eps) == Prune(MovedStore(Window(r0, c0, h, w), m, m.Keys), eps)
  {
    res := new Matrix(h, w, eps);
    var cs := Ordered(m.Keys);
    res.WriteWindow(m, cs, r0, c0);
    MovesRead(Window(r0, c0, h, w), m, cs, eps);
    OrderedElems(m.Keys);
  }

  /** A slice of a matrix: the window [startRow, endRow] x [startCol, endCol] of `parent`. */
  class Proxy {
    /** parent_: null once the parent matrix has been destroyed. */
    var parent: Matrix?
    const startRow: nat
    const endRow: nat
    const startCol: nat
    const endCol: nat

    /**
      Matrix_proxy(parent, start_row, end_row, start_col, end_col), as
      slicing calls it: with a nonempty window.
     */
    constructor(parent: Matrix, startRow: nat, endRow: nat, startCol: nat, endCol: nat)
      requires 1 <= startRow <= endRow < U32 && 1 <= startCol <= endCol < U32
      ensures Valid() && this.parent == parent
      ensures this.startRow == startRow && this.endRow == endRow
      ensures this.startCol == startCol && this.endCol == endCol
    {
      this.parent := parent;
      this.startRow := startRow;
      this.endRow := endRow;
      this.startCol := startCol;
      this.endCol := endCol;
    }

    /** The window is nonempty and its bounds are unsigned numbers. */
    predicate Valid() {
      1 <= startRow <= endRow < U32 && 1 <= startCol <= endCol < U32
    }

    /** The bounds in the order of Matrix_coords: first row, first column, last row, last column. */
    function Bounds(): (nat, nat, nat, nat) {
      (startRow, startCol, endRow, endCol)
    }

    /** end_row - start_row + 1. */
    function Height(): nat
      requires Valid()
    {
      endRow - startRow + 1
    }

    /** end_col - start_col + 1. */
    function Width(): nat
      requires Valid()
    {
      endCol - startCol + 1
    }

    /**
      operator() of a slice: parent_deleted_error once the parent is gone,
      then invalid_proxy_index_error outside the window, and otherwise the
      parent's element at (start_row + r - 1, start_col + c - 1), read with
      the parent's own checks and pruning.
     */
    method Read(r: nat, c: nat) returns (res: Result<int, MatrixError>)
      requires Valid() && (parent != null ==> parent.Valid())
      modifies parent
      ensures parent == old(parent)
      ensures parent == null ==> res == Failure(ParentDeleted)
      ensures parent != null ==> parent.Valid() && parent.cols == old(parent.cols) && parent.proxies == old(parent.proxies)
      ensures parent != null && !InShape((r, c), Height(), Width()) ==>
        res == Failure(InvalidProxyIndex) && parent.store == old(parent.store)
      ensures parent != null && InShape((r, c), Height(), Width()) && !InShape(Target(r, c), parent.rows, parent.cols) ==>
        res == Failure(InvalidIndex) && parent.store == old(parent.store)
      ensures parent != null && InShape((r, c), Height(), Width()) && InShape(Target(r, c), parent.rows, parent.cols) ==>
        res == Success(Get(Prune(old(parent.store), parent.eps), Target(r, c)))
        && parent.store == Prune(old(parent.store), parent.eps)
    {
      if parent == null {
        return Failure(ParentDeleted);
      }
      if r < 1 || r > endRow - startRow + 1 {
        return Failure(InvalidProxyIndex);
      }
      if c < 1 || c > endCol - startCol + 1 {
        return Failure(InvalidProxyIndex);
      }
      res := parent.Read(r - 1 + startRow, c - 1 + startCol);
    }

    /** The parent's position that position (r, c) of the slice stands for. */
    function Target(r: nat, c: nat): Cell
      requires Valid()
    {
      (r - 1 + startRow, c - 1 + startCol)
    }

    /**
      ~Matrix_proxy as written: parent_->detach_proxy(this) with no check of
      parent_, so once ~Matrix has cleared it the call goes through a null
      pointer (undefined behaviour, reported in `nullDeref`).
     */
    method DeleteAsWritten() returns (nullDeref: bool)
      modifies parent
      ensures parent == old(parent)
      ensures nullDeref <==> parent == null
      ensures parent != null ==> parent.proxies == old(parent.proxies) - {this}
      ensures parent != null ==> parent.store == old(parent.store) && parent.cols == old(parent.cols)
    {
      nullDeref := parent == null;
      if parent != null {
        parent.DetachProxy(this);
      }
    }

    /**
      ~Matrix_proxy, corrected: the parent forgets this slice while it
      lives; a slice whose parent is gone has nothing to detach from.
     */
    method Delete()
      modifies parent
      ensures parent == old(parent)
      ensures parent != null ==> parent.proxies == old(parent.proxies) - {this}
      ensures parent != null ==> parent.store == old(parent.store) && parent.cols == old(parent.cols)
    {
      if parent != null {
        parent.DetachProxy(this);
      }
    }
  }

  /**
    The parent_deleted scenario of ProxyTest carried one step further: the
    slice outlives its matrix and is then destroyed. As written its
    destructor dereferences the null parent; the corrected one does not.
   */
  method DeleteAfterDestroy() returns (nullDeref: bool)
    ensures nullDeref
  {
    var m := new Matrix(2, 2, 0.0);
    var s := m.SliceRow(RowCoord(1));
    var p := s.value;
    m.Destroy();
    assert p.parent == null;
    nullDeref := p.DeleteAsWritten();
    p.Delete();
  }
}
