/**
  One-point crossover of two LifeConditions (OnePointBreed).  The random
  number Breed draws is a parameter.
 */
module Breeding {
  import opened Wrappers
  import opened Life
  import opened LifeProcedures

  /** The exception both operations throw when the parents differ in size. */
  datatype BreedError = SizeMismatch

  /**
    The crossed board: the cells whose row-major index i * n + j is below k
    come from f, the others from s.
   */
  function Cross(f: Grid, s: Grid, n: nat, k: nat): (h: Grid)
    requires Square(f, n) && Square(s, n)
    ensures Square(h, n)
  {
    seq(n, i requires 0 <= i < n => seq(n, j requires 0 <= j < n => if i * n + j < k then f[i][j] else s[i][j]))
  }

  /** Row i covers the linear indices i * n .. i * n + n - 1. */
  lemma RowSpan(i: nat, j: nat, n: nat)
    requires j < n
    ensures i * n <= i * n + j < (i + 1) * n
    ensures (i + 1) * n == i * n + n
  {
  }

  /**
    BreedOne: a row wholly before the cross point is copied from the first
    parent, a row wholly after it from the second, and the row it falls in
    is built cell by cell; the board then goes through the state
    constructor.
   */
  method BreedOne(f: Condition, s: Condition, start: nat) returns (r: Result<Condition, BreedError>)
    requires Valid(f) && Valid(s)
    ensures f.size != s.size ==> r == Failure(SizeMismatch)
    ensures f.size == s.size ==> r == Success(Scored(f.size, Cross(f.state, s.state, f.size, start)))
  {
    if f.size != s.size {
      return Failure(SizeMismatch);
    }
    var n := f.size;
    ghost var want := Cross(f.state, s.state, n, start);
    var res: Grid := [];
    var i := 0;
    while i < n
      invariant 0 <= i <= n && |res| == i
      invariant forall a :: 0 <= a < i ==> res[a] == want[a]
    {
      var row: seq<bool>;
      if start > (i + 1) * n - 1 {
        row := f.state[i];
        forall j | 0 <= j < n ensures row[j] == want[i][j] {
          RowSpan(i, j, n);
        }
      } else if start < i * n {
        row := s.state[i];
        forall j | 0 <= j < n ensures row[j] == want[i][j] {
          RowSpan(i, j, n);
        }
      } else {
        row := BreedRow(f.state, s.state, n, i, start);
      }
      assert row == want[i];
      res := res + [row];
      i := i + 1;
    }
    assert res == want;
    var made := FromState(n, res);
    return Success(made.value);
  }

  /** The row the cross point falls in, cell by cell. */
  method BreedRow(f: Grid, s: Grid, n: nat, i: nat, start: nat) returns (row: seq<bool>)
    requires Square(f, n) && Square(s, n) && i < n
    ensures row == Cross(f, s, n, start)[i]
  {
    row := [];
    var j := 0;
    while j < n
      invariant 0 <= j <= n && |row| == j
      invariant forall b :: 0 <= b < j ==> row[b] == Cross(f, s, n, start)[i][b]
    {
      if start > i * n + j {
        row := row + [f[i][j]];
      } else if start <= i * n + j {
        row := row + [s[i][j]];
      }
      j := j + 1;
    }
  }

  /**
    Breed: the parents must have one size; the cross point is the draw
    modulo size * size + 1.  At 0 or size * size the parents are returned
    as they are, otherwise the two crossings.
   */
  method Breed(f: Condition, s: Condition, draw: nat) returns (r: Result<seq<Condition>, BreedError>)
    requires Valid(f) && Valid(s)
    ensures f.size != s.size ==> r == Failure(SizeMismatch)
    ensures f.size == s.size ==>
      var n := f.size;
      var k := draw % (n * n + 1);
      r == Success(if k == 0 || k == n * n then [f, s]
                   else [Scored(n, Cross(f.state, s.state, n, k)), Scored(n, Cross(s.state, f.state, n, k))])
  {
    if f.size != s.size {
      return Failure(SizeMismatch);
    }
    var n := f.size;
    var cross := draw % (n * n + 1);
    if cross == 0 || cross == n * n {
      return Success([f, s]);
    }
    var one := BreedOne(f, s, cross);
    var two := BreedOne(s, f, cross);
    return Success([one.value, two.value]);
  }

  // ----- properties -----

  /** The two crossings at one point are complementary: at every cell one child has f's value and the other s's. */
  lemma CrossComplement(f: Grid, s: Grid, n: nat, k: nat)
    requires Square(f, n) && Square(s, n)
    ensures forall i, j :: 0 <= i < n && 0 <= j < n ==>
      (Cross(f, s, n, k)[i][j] == f[i][j] && Cross(s, f, n, k)[i][j] == s[i][j]) ||
      (Cross(f, s, n, k)[i][j] == s[i][j] && Cross(s, f, n, k)[i][j] == f[i][j])
  {
  }

  /** A crossing takes exactly the first k cells in row-major order from f: cell (i, j) comes from f iff i * n + j < k. */
  lemma CrossPrefix(f: Grid, s: Grid, n: nat, k: nat, i: nat, j: nat)
    requires Square(f, n) && Square(s, n) && i < n && j < n && f[i][j] != s[i][j]
    ensures Cross(f, s, n, k)[i][j] == f[i][j] <==> i * n + j < k
  {
  }

  /**
    At the two ends the crossing is a parent: at 0 the second, at n * n the
    first, so there the general formula would give the parents' boards in
    swapped order (at 0) or in order (at n * n), where Breed returns the
    parents themselves.
   */
  lemma CrossEnds(f: Grid, s: Grid, n: nat)
    requires Square(f, n) && Square(s, n)
    ensures Cross(f, s, n, 0) == s
    ensures Cross(f, s, n, n * n) == f
  {
    forall i, j | 0 <= i < n && 0 <= j < n
      ensures Cross(f, s, n, n * n)[i][j] == f[i][j]
    {
      RowSpan(i, j, n);
      assert (i + 1) * n <= n * n by {
        assert i + 1 <= n;
      }
    }
    GridExt(Cross(f, s, n, n * n), f, n);
    GridExt(Cross(f, s, n, 0), s, n);
  }

  /** Crossing a board with itself gives it back, wherever the point is. */
  lemma CrossSame(f: Grid, n: nat, k: nat)
    requires Square(f, n)
    ensures Cross(f, f, n, k) == f
  {
    GridExt(Cross(f, f, n, k), f, n);
  }
}
