/**
  The Game-of-Life state of the genetic search (LifeCondition): a square
  grid of cells on a board that does not wrap, together with the two
  numbers CountOptValue caches, and the B3/S23 rule that SkipConditions
  applies.  This module holds the specification: the step as a function of
  the grid, the conditions after k steps, equality, the text form and the
  score. The procedures that compute them are in LifeProcedures.
 */
module Life {
  import opened Machine

  type Grid = seq<seq<bool>>

  /** A grid with `n` rows of `n` cells each. */
  predicate Square(g: Grid, n: nat) {
    |g| == n && forall i :: 0 <= i < n ==> |g[i]| == n
  }

  /**
    A LifeCondition: its size, its cells, and the numbers CountOptValue
    stores (the live cells after 100 steps and whether that state is
    stationary).
   */
  datatype Condition = Condition(size: nat, state: Grid, alive: nat, stationary: bool)

  /** What every LifeCondition satisfies: an unsigned size and a size × size grid. */
  predicate Valid(c: Condition) {
    c.size < U32 && Square(c.state, c.size)
  }

  type Pos = (int, int)

  predicate InGrid(n: nat, p: Pos) {
    0 <= p.0 < n && 0 <= p.1 < n
  }

  /** Whether p is a live cell; cells outside the board count as dead. */
  predicate LiveAt(g: Grid, n: nat, p: Pos)
    requires Square(g, n)
  {
    InGrid(n, p) && g[p.0][p.1]
  }

  /**
    The t-th cell of the 3 × 3 block around (i, j), in the order of the
    loops of SkipConditions: row offset t / 3 - 1, column offset t % 3 - 1; t == 4
    is the cell itself.
   */
  function Off(i: int, j: int, t: nat): Pos {
    (i + t / 3 - 1, j + t % 3 - 1)
  }

  /** The live cells among the first t offsets of the block around (i, j), the centre left out. */
  function CountTo(g: Grid, n: nat, i: int, j: int, t: nat): nat
    requires Square(g, n)
  {
    if t == 0 then 0
    else CountTo(g, n, i, j, t - 1) + (if t - 1 != 4 && LiveAt(g, n, Off(i, j, t - 1)) then 1 else 0)
  }

  /** The live neighbours of (i, j): the eight surrounding cells that exist and are alive. */
  function Neighbours(g: Grid, n: nat, i: int, j: int): nat
    requires Square(g, n)
  {
    CountTo(g, n, i, j, 9)
  }

  /** B3/S23: born with three live neighbours, surviving with two or three. */
  predicate NextAlive(g: Grid, n: nat, i: int, j: int)
    requires Square(g, n)
  {
    var k := Neighbours(g, n, i, j);
    k == 3 || (LiveAt(g, n, (i, j)) && k == 2)
  }

  /** One generation of the whole board. */
  function Step(g: Grid, n: nat): (h: Grid)
    requires Square(g, n)
    ensures Square(h, n)
  {
    seq(n, i => seq(n, j => NextAlive(g, n, i, j)))
  }

  /** k generations. */
  function Generations(g: Grid, n: nat, k: nat): (h: Grid)
    requires Square(g, n)
    ensures Square(h, n)
  {
    if k == 0 then g else Step(Generations(g, n, k - 1), n)
  }

  /** The board with every cell dead. */
  function Dead(n: nat): (g: Grid)
    ensures Square(g, n)
  {
    seq(n, i => seq(n, j => false))
  }

  /**
    SkipConditions(steps): zero or fewer steps give a copy of the condition;
    otherwise the result is the condition built by the zeros constructor
    with the cells of the last generation, so its cached numbers are those
    of the zeros constructor.
   */
  function Skip(c: Condition, steps: int): (r: Condition)
    requires Valid(c)
    ensures Valid(r) && r.size == c.size
  {
    if steps <= 0 then c else Condition(c.size, Generations(c.state, c.size, steps), 0, true)
  }

  /** operator==: the same size and the same cell everywhere; the cached numbers are not compared. */
  predicate Same(a: Condition, b: Condition)
    requires Valid(a) && Valid(b)
  {
    a.size == b.size &&
    forall i, j :: 0 <= i < a.size && 0 <= j < a.size ==> a.state[i][j] == b.state[i][j]
  }

  /** IsStationary: one step leaves the condition equal to itself. */
  predicate Stationary(c: Condition)
    requires Valid(c)
  {
    Same(Skip(c, 1), c)
  }

  /** The number of live cells of a board. */
  function CountAlive(g: Grid): nat {
    if g == [] then 0 else CountAlive(g[..|g| - 1]) + RowAlive(g[|g| - 1])
  }

  function RowAlive(row: seq<bool>): nat {
    if row == [] then 0 else RowAlive(row[..|row| - 1]) + (if row[|row| - 1] then 1 else 0)
  }

  /**
    The condition the state constructor builds: CountOptValue counts the
    live cells after 100 steps and asks whether that state is stationary.
   */
  function Scored(n: nat, g: Grid): (c: Condition)
    requires n < U32 && Square(g, n)
    ensures Valid(c)
  {
    var later := Skip(Condition(n, g, 0, false), 100);
    Condition(n, g, CountAlive(later.state), Stationary(later))
  }

  /** The cells the planer (glider) constructor sets alive, as (row, column). */
  const Glider: set<Pos> := {(2, 0), (2, 1), (2, 2), (1, 2), (0, 1)}

  function PlanerGrid(n: nat): (g: Grid)
    ensures Square(g, n)
  {
    seq(n, i => seq(n, j => (i, j) in Glider))
  }

  /** IsValid: the state after 100 steps is not stationary. */
  predicate IsValid(c: Condition) {
    !c.stationary
  }

  /**
    OptValue: the live cells after 100 steps, plus size × size when the
    condition is not valid.  All three are unsigned in LifeCondition, so the
    sum is taken modulo 2^32.
   */
  function OptValue(c: Condition): nat {
    (c.alive + (if IsValid(c) then 0 else (c.size * c.size) % U32)) % U32
  }

  /** One text line per row: 'X' for a live cell, '-' for a dead one, then a line break. */
  function RowText(row: seq<bool>): (s: string)
    ensures |s| == |row| + 1 && s[|row|] == '\n'
    ensures forall j :: 0 <= j < |row| ==> s[j] == (if row[j] then 'X' else '-')
  {
    seq(|row|, j requires 0 <= j < |row| => if row[j] then 'X' else '-') + "\n"
  }

  /** ToString. */
  function Render(g: Grid): string {
    if g == [] then "" else Render(g[..|g| - 1]) + RowText(g[|g| - 1])
  }

  // ----- properties -----

  /** Two square grids of one size that agree at every cell are equal. */
  lemma GridExt(a: Grid, b: Grid, n: nat)
    requires Square(a, n) && Square(b, n)
    requires forall i, j :: 0 <= i < n && 0 <= j < n ==> a[i][j] == b[i][j]
    ensures a == b
  {
    forall i | 0 <= i < n
      ensures a[i] == b[i]
    {
      assert forall j :: 0 <= j < n ==> a[i][j] == b[i][j];
    }
  }

  /** operator== is equality of size and board. */
  lemma SameMeaning(a: Condition, b: Condition)
    requires Valid(a) && Valid(b)
    ensures Same(a, b) <==> a.size == b.size && a.state == b.state
  {
    if Same(a, b) {
      GridExt(a.state, b.state, a.size);
    }
  }

  /** IsStationary holds exactly when one generation leaves the board unchanged. */
  lemma StationaryMeaning(c: Condition)
    requires Valid(c)
    ensures Stationary(c) <==> Step(c.state, c.size) == c.state
  {
    assert Generations(c.state, c.size, 1) == Step(c.state, c.size);
    SameMeaning(Skip(c, 1), c);
  }

  /** The number of generations adds up. */
  lemma {:induction false} GenerationsAdd(g: Grid, n: nat, a: nat, b: nat)
    requires Square(g, n)
    ensures Generations(Generations(g, n, a), n, b) == Generations(g, n, a + b)
  {
    if b != 0 {
      GenerationsAdd(g, n, a, b - 1);
    }
  }

  /** SkipConditions(0) is the condition itself. */
  lemma SkipNone(c: Condition)
    requires Valid(c)
    ensures Skip(c, 0) == c
  {
  }

  /** SkipConditions(b) after SkipConditions(a) is SkipConditions(a + b), cached numbers included. */
  lemma SkipAdd(c: Condition, a: nat, b: nat)
    requires Valid(c)
    ensures Skip(Skip(c, a), b) == Skip(c, a + b)
  {
    if a > 0 && b > 0 {
      GenerationsAdd(c.state, c.size, a, b);
    }
  }

  /** Every condition SkipConditions returns after at least one step is scored as the zeros constructor leaves it. */
  lemma SkipScore(c: Condition, steps: int)
    requires Valid(c) && steps >= 1
    ensures !IsValid(Skip(c, steps)) && OptValue(Skip(c, steps)) == (c.size * c.size) % U32
  {
  }

  /** Counting stops at the grid's cells: a board has at most n * n live cells. */
  lemma CountAliveBound(g: Grid, n: nat)
    requires Square(g, n)
    ensures CountAlive(g) <= n * n
  {
    CountAliveRows(g, n);
  }

  lemma {:induction false} CountAliveRows(g: Grid, n: nat)
    requires forall i :: 0 <= i < |g| ==> |g[i]| == n
    ensures CountAlive(g) <= |g| * n
  {
    if g != [] {
      var m := |g| - 1;
      var front := g[..m];
      assert forall i :: 0 <= i < m ==> |front[i]| == n;
      CountAliveRows(front, n);
      RowAliveBound(g[m]);
      var a, b := CountAlive(front), RowAlive(g[m]);
      assert CountAlive(g) == a + b;
      assert a <= m * n && b <= n;
      assert (m + 1) * n == m * n + n;
    }
  }

  lemma {:induction false} RowAliveBound(row: seq<bool>)
    ensures RowAlive(row) <= |row|
  {
    if row != [] {
      RowAliveBound(row[..|row| - 1]);
    }
  }

  /** A board of an unsigned size has at most size * size live cells after any number of steps. */
  lemma ScoredAliveBound(n: nat, g: Grid)
    requires n < U32 && Square(g, n)
    ensures Scored(n, g).alive <= n * n
  {
    CountAliveBound(Skip(Condition(n, g, 0, false), 100).state, n);
  }

  /**
    For boards up to 46340 × 46340 the unsigned sum in OptValue does not
    wrap: the value is the live count, plus size * size for an invalid
    condition.
   */
  lemma OptValueExact(c: Condition)
    requires c.size <= 46340 && c.alive <= c.size * c.size
    ensures OptValue(c) == c.alive + (if IsValid(c) then 0 else c.size * c.size)
  {
    assert c.size * c.size <= 46340 * 46340 by {
      MulMono(c.size, 46340);
    }
  }

  lemma MulMono(a: nat, b: nat)
    requires a <= b
    ensures a * a <= b * b
  {
  }

  /** A live count above zero has a live cell among the offsets, and it is not the centre. */
  lemma {:induction false} SomeLiveOffset(g: Grid, n: nat, i: int, j: int, t: nat)
    requires Square(g, n) && t <= 9 && CountTo(g, n, i, j, t) > 0
    ensures exists u :: 0 <= u < t && u != 4 && LiveAt(g, n, Off(i, j, u))
  {
    if !(t - 1 != 4 && LiveAt(g, n, Off(i, j, t - 1))) {
      SomeLiveOffset(g, n, i, j, t - 1);
    }
  }

  /** The block around (i, j) seen from its u-th cell: (i, j) is that cell's (8 - u)-th. */
  lemma OffMirror(i: int, j: int, u: nat)
    requires u <= 8
    ensures Off(Off(i, j, u).0, Off(i, j, u).1, 8 - u) == (i, j)
    ensures u != 4 <==> 8 - u != 4
  {
    assert u == 0 || u == 1 || u == 2 || u == 3 || u == 4 || u == 5 || u == 6 || u == 7 || u == 8;
  }

  /** A cell with a live neighbour lies around some live cell. */
  lemma NeighbourOfLive(g: Grid, n: nat, i: int, j: int)
    requires Square(g, n) && Neighbours(g, n, i, j) > 0
    ensures exists q: Pos, u: nat :: u <= 8 && u != 4 && LiveAt(g, n, q) && Off(q.0, q.1, u) == (i, j)
  {
    SomeLiveOffset(g, n, i, j, 9);
    var u :| 0 <= u < 9 && u != 4 && LiveAt(g, n, Off(i, j, u));
    OffMirror(i, j, u);
    var q := Off(i, j, u);
    assert LiveAt(g, n, q) && Off(q.0, q.1, 8 - u) == (i, j);
  }

  /**
    Where row i, column j of a board n wide sits in its text form; with
    `rows` rows the text is rows * (n + 1) long.
   */
  function TextIndex(i: nat, j: nat, n: nat, rows: nat): (k: nat)
    requires i < rows && j <= n
    ensures k < rows * (n + 1)
  {
    RowOffset(i, j, rows, n);
    i * (n + 1) + j
  }

  lemma RowOffset(i: nat, j: nat, m: nat, n: nat)
    requires i < m && j <= n
    ensures i * (n + 1) + j < m * (n + 1)
  {
    assert (i + 1) * (n + 1) <= m * (n + 1) by {
      assert i + 1 <= m;
    }
    assert (i + 1) * (n + 1) == i * (n + 1) + (n + 1);
  }

  /** The text form has one line per row, of n marks followed by a line break. */
  lemma {:induction false} RenderShape(g: Grid, n: nat)
    requires forall i :: 0 <= i < |g| ==> |g[i]| == n
    ensures |Render(g)| == |g| * (n + 1)
    ensures forall i, j :: 0 <= i < |g| && 0 <= j < n ==>
      Render(g)[TextIndex(i, j, n, |g|)] == (if g[i][j] then 'X' else '-')
    ensures forall i :: 0 <= i < |g| ==> Render(g)[TextIndex(i, n, n, |g|)] == '\n'
  {
    if g != [] {
      var m := |g| - 1;
      var front := g[..m];
      assert forall i :: 0 <= i < m ==> |front[i]| == n && front[i] == g[i];
      RenderShape(front, n);
      RenderLast(Render(front), RowText(g[m]), g, n, m);
    }
  }

  /** The step of RenderShape: the last row's line appended to the text of the m rows before it. */
  lemma RenderLast(r0: string, line: string, g: Grid, n: nat, m: nat)
    requires |g| == m + 1 && forall i :: 0 <= i < |g| ==> |g[i]| == n
    requires r0 == Render(g[..m]) && line == RowText(g[m])
    requires |r0| == m * (n + 1)
    requires forall i, j :: 0 <= i < m && 0 <= j < n ==> r0[TextIndex(i, j, n, m)] == (if g[i][j] then 'X' else '-')
    requires forall i :: 0 <= i < m ==> r0[TextIndex(i, n, n, m)] == '\n'
    ensures |Render(g)| == |g| * (n + 1)
    ensures forall i, j :: 0 <= i < |g| && 0 <= j < n ==>
      Render(g)[TextIndex(i, j, n, |g|)] == (if g[i][j] then 'X' else '-')
    ensures forall i :: 0 <= i < |g| ==> Render(g)[TextIndex(i, n, n, |g|)] == '\n'
  {
    assert Render(g) == r0 + line;
    assert |g| * (n + 1) == m * (n + 1) + (n + 1);
    forall i, j | 0 <= i < |g| && 0 <= j <= n
      ensures i < m ==> TextIndex(i, j, n, |g|) == TextIndex(i, j, n, m)
      ensures i == m ==> TextIndex(i, j, n, |g|) == |r0| + j
    {
    }
  }
}
