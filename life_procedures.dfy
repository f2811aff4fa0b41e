/**
  The procedures of LifeCondition: the constructors, SkipConditions with its
  two-pass neighbour survey, operator==, IsStationary, ToString and
  CountOptValue, each proved against the functions of module Life.
 */
module LifeProcedures {
  import opened Wrappers
  import opened Machine
  import opened Life

  /** The state constructor's complaint: the vector is not size × size. */
  datatype LifeError = NotSquare

  /** The cells of the block around (i, j) that lie on the board, the centre left out, are in s. */
  predicate Covers(s: set<Pos>, n: nat, i: int, j: int) {
    forall u :: 0 <= u < 9 && u != 4 && InGrid(n, Off(i, j, u)) ==> Off(i, j, u) in s
  }

  /** with_2_or_3_neigh: every recorded cell is on the board, with its live-neighbour count, 2 or 3. */
  predicate Recorded(m: map<Pos, nat>, g: Grid, n: nat)
    requires Square(g, n)
  {
    forall p :: p in m ==> InGrid(n, p) && m[p] == Neighbours(g, n, p.0, p.1) && (m[p] == 2 || m[p] == 3)
  }

  predicate OnBoard(s: set<Pos>, n: nat) {
    forall p :: p in s ==> InGrid(n, p)
  }

  /** The t-th cell of the block is the one at offset (di, dj) with t == 3 * (di + 1) + (dj + 1); the centre is t == 4. */
  lemma OffAt(i: int, j: int, di: int, dj: int)
    requires -1 <= di <= 1 && -1 <= dj <= 1
    ensures Off(i, j, 3 * (di + 1) + (dj + 1)) == (i + di, j + dj)
    ensures 3 * (di + 1) + (dj + 1) == 4 <==> di == 0 && dj == 0
  {
    var a, b := di + 1, dj + 1;
    if a == 0 {
      assert (3 * a + b) / 3 == 0 && (3 * a + b) % 3 == b;
    } else if a == 1 {
      assert (3 * a + b) / 3 == 1 && (3 * a + b) % 3 == b;
    } else {
      assert (3 * a + b) / 3 == 2 && (3 * a + b) % 3 == b;
    }
  }

  /** The body of the second pass's neighbour loop at offset (di, dj): a live neighbour on the board is counted. */
  method Tally(g: Grid, n: nat, i: int, j: int, di: int, dj: int, count0: nat) returns (count: nat)
    requires Square(g, n) && -1 <= di <= 1 && -1 <= dj <= 1
    requires count0 == CountTo(g, n, i, j, 3 * (di + 1) + (dj + 1))
    ensures count == CountTo(g, n, i, j, 3 * (di + 1) + (dj + 1) + 1)
  {
    OffAt(i, j, di, dj);
    count := count0;
    if 0 <= i + di < n && 0 <= j + dj < n && !(di == 0 && dj == 0) {
      if g[i + di][j + dj] {
        count := count + 1;
      }
    }
  }

  /** The neighbour loop over di, dj in -1..1 of the second pass: it only counts. */
  method CountAround(g: Grid, n: nat, i: int, j: int) returns (count: nat)
    requires Square(g, n)
    ensures count == Neighbours(g, n, i, j)
  {
    count := 0;
    var di := -1;
    while di <= 1
      invariant -1 <= di <= 2
      invariant count == CountTo(g, n, i, j, 3 * (di + 1))
    {
      var dj := -1;
      while dj <= 1
        invariant -1 <= dj <= 2
        invariant count == CountTo(g, n, i, j, 3 * (di + 1) + (dj + 1))
      {
        count := Tally(g, n, i, j, di, dj, count);
        dj := dj + 1;
      }
      di := di + 1;
    }
  }

  /** The cells of the block around (i, j) before the t-th that lie on the board, the centre left out, are in s. */
  predicate CoversTo(s: set<Pos>, n: nat, i: int, j: int, t: nat) {
    forall u :: 0 <= u < t && u != 4 && InGrid(n, Off(i, j, u)) ==> Off(i, j, u) in s
  }

  /** Every cell of s that s0 lacks is on the board. */
  predicate AddsOnBoard(s0: set<Pos>, s: set<Pos>, n: nat) {
    s0 <= s && forall p :: p in s ==> p in s0 || InGrid(n, p)
  }

  /**
    The body of the first pass's neighbour loop at offset (di, dj), the t-th
    of the block: a neighbour on the board joins to_process and, when
    alive, is counted.
   */
  method Visit(g: Grid, n: nat, i: int, j: int, di: int, dj: int, count0: nat, s0: set<Pos>)
    returns (count: nat, s: set<Pos>)
    requires Square(g, n) && -1 <= di <= 1 && -1 <= dj <= 1
    requires count0 == CountTo(g, n, i, j, 3 * (di + 1) + (dj + 1))
    requires CoversTo(s0, n, i, j, 3 * (di + 1) + (dj + 1))
    ensures count == CountTo(g, n, i, j, 3 * (di + 1) + (dj + 1) + 1)
    ensures AddsOnBoard(s0, s, n) && CoversTo(s, n, i, j, 3 * (di + 1) + (dj + 1) + 1)
  {
    ghost var t := 3 * (di + 1) + (dj + 1);
    OffAt(i, j, di, dj);
    count, s := count0, s0;
    if 0 <= i + di < n && 0 <= j + dj < n && !(di == 0 && dj == 0) {
      s := s + {(i + di, j + dj)};
      if g[i + di][j + dj] {
        count := count + 1;
      }
    }
    forall u | 0 <= u < t + 1 && u != 4 && InGrid(n, Off(i, j, u))
      ensures Off(i, j, u) in s
    {
      if u < t {
        assert Off(i, j, u) in s0;
      }
    }
  }

  lemma AddsTrans(s0: set<Pos>, s1: set<Pos>, s2: set<Pos>, n: nat)
    requires AddsOnBoard(s0, s1, n) && AddsOnBoard(s1, s2, n)
    ensures AddsOnBoard(s0, s2, n)
  {
  }

  /**
    The neighbour loop of the first pass, for a live cell: it counts the
    live neighbours and puts every neighbour on the board into to_process.
   */
  method Survey(g: Grid, n: nat, i: int, j: int, s0: set<Pos>) returns (count: nat, s: set<Pos>)
    requires Square(g, n)
    ensures count == Neighbours(g, n, i, j)
    ensures AddsOnBoard(s0, s, n) && Covers(s, n, i, j)
  {
    count := 0;
    s := s0;
    var di := -1;
    while di <= 1
      invariant -1 <= di <= 2
      invariant count == CountTo(g, n, i, j, 3 * (di + 1))
      invariant AddsOnBoard(s0, s, n) && CoversTo(s, n, i, j, 3 * (di + 1))
    {
      var dj := -1;
      while dj <= 1
        invariant -1 <= dj <= 2
        invariant count == CountTo(g, n, i, j, 3 * (di + 1) + (dj + 1))
        invariant AddsOnBoard(s0, s, n) && CoversTo(s, n, i, j, 3 * (di + 1) + (dj + 1))
      {
        ghost var before := s;
        count, s := Visit(g, n, i, j, di, dj, count, s);
        AddsTrans(s0, before, s, n);
        dj := dj + 1;
      }
      di := di + 1;
    }
    assert CoversTo(s, n, i, j, 9);
  }

  // ----- one generation: SkipConditions' loop body -----

  /** What the first pass leaves for a cell (a, b): if it is alive, its neighbours are queued and, with 2 or 3 of them alive, it is recorded. */
  predicate Surveyed(s: set<Pos>, m: map<Pos, nat>, g: Grid, n: nat, a: int, b: int)
    requires Square(g, n) && InGrid(n, (a, b))
  {
    g[a][b] ==> Covers(s, n, a, b) && (Neighbours(g, n, a, b) == 2 || Neighbours(g, n, a, b) == 3 ==> (a, b) in m)
  }

  /** Queueing or recording more keeps every surveyed cell surveyed. */
  lemma SurveyedKeep(s: set<Pos>, m: map<Pos, nat>, s2: set<Pos>, m2: map<Pos, nat>, g: Grid, n: nat)
    requires Square(g, n) && s <= s2 && m.Keys <= m2.Keys
    ensures forall a, b :: InGrid(n, (a, b)) && Surveyed(s, m, g, n, a, b) ==> Surveyed(s2, m2, g, n, a, b)
  {
  }

  /** The first pass at cell (i, j). */
  method SurveyCell(g: Grid, n: nat, i: int, j: int, s0: set<Pos>, m0: map<Pos, nat>) returns (s: set<Pos>, m: map<Pos, nat>)
    requires Square(g, n) && InGrid(n, (i, j)) && OnBoard(s0, n) && Recorded(m0, g, n)
    ensures OnBoard(s, n) && s0 <= s && Recorded(m, g, n) && m0.Keys <= m.Keys
    ensures Surveyed(s, m, g, n, i, j)
  {
    s, m := s0, m0;
    if g[i][j] {
      var count;
      count, s := Survey(g, n, i, j, s);
      if count == 2 || count == 3 {
        m := m[(i, j) := count];
      }
    }
  }

  /** The first pass has dealt with the cells (i, b), b < j. */
  predicate RowSurveyed(s: set<Pos>, m: map<Pos, nat>, g: Grid, n: nat, i: int, j: nat)
    requires Square(g, n) && 0 <= i < n && j <= n
  {
    forall b :: 0 <= b < j ==> Surveyed(s, m, g, n, i, b)
  }

  lemma RowSurveyedNext(s1: set<Pos>, m1: map<Pos, nat>, s: set<Pos>, m: map<Pos, nat>, g: Grid, n: nat, i: int, j: nat)
    requires Square(g, n) && 0 <= i < n && j < n && s1 <= s && m1.Keys <= m.Keys
    requires RowSurveyed(s1, m1, g, n, i, j) && Surveyed(s, m, g, n, i, j)
    ensures RowSurveyed(s, m, g, n, i, j + 1)
  {
    SurveyedKeep(s1, m1, s, m, g, n);
  }

  /** The first pass has dealt with the rows a < i. */
  predicate RowsSurveyed(s: set<Pos>, m: map<Pos, nat>, g: Grid, n: nat, i: nat)
    requires Square(g, n) && i <= n
  {
    forall a, b :: 0 <= a < i && 0 <= b < n ==> Surveyed(s, m, g, n, a, b)
  }

  lemma RowsSurveyedNext(s1: set<Pos>, m1: map<Pos, nat>, s: set<Pos>, m: map<Pos, nat>, g: Grid, n: nat, i: nat)
    requires Square(g, n) && i < n && s1 <= s && m1.Keys <= m.Keys
    requires RowsSurveyed(s1, m1, g, n, i) && RowSurveyed(s, m, g, n, i, n)
    ensures RowsSurveyed(s, m, g, n, i + 1)
  {
    SurveyedKeep(s1, m1, s, m, g, n);
  }

  /** The first pass over row i. */
  method SurveyRow(g: Grid, n: nat, i: int, s0: set<Pos>, m0: map<Pos, nat>) returns (s: set<Pos>, m: map<Pos, nat>)
    requires Square(g, n) && 0 <= i < n && OnBoard(s0, n) && Recorded(m0, g, n)
    ensures OnBoard(s, n) && s0 <= s && Recorded(m, g, n) && m0.Keys <= m.Keys
    ensures RowSurveyed(s, m, g, n, i, n)
  {
    s, m := s0, m0;
    var j := 0;
    while j < n
      invariant 0 <= j <= n
      invariant OnBoard(s, n) && s0 <= s && Recorded(m, g, n) && m0.Keys <= m.Keys
      invariant RowSurveyed(s, m, g, n, i, j)
    {
      ghost var s1, m1 := s, m;
      s, m := SurveyCell(g, n, i, j, s, m);
      RowSurveyedNext(s1, m1, s, m, g, n, i, j);
      j := j + 1;
    }
  }

  /** The first pass: every live cell queues its neighbours and, with 2 or 3 live neighbours, is recorded. */
  method SurveyAll(g: Grid, n: nat) returns (s: set<Pos>, m: map<Pos, nat>)
    requires Square(g, n)
    ensures OnBoard(s, n) && Recorded(m, g, n)
    ensures RowsSurveyed(s, m, g, n, n)
  {
    s, m := {}, map[];
    var i := 0;
    while i < n
      invariant 0 <= i <= n
      invariant OnBoard(s, n) && Recorded(m, g, n)
      invariant RowsSurveyed(s, m, g, n, i)
    {
      ghost var s1, m1 := s, m;
      s, m := SurveyRow(g, n, i, s, m);
      RowsSurveyedNext(s1, m1, s, m, g, n, i);
      i := i + 1;
    }
  }

  /** The second pass: every queued cell with 2 or 3 live neighbours is recorded with its count. */
  method Recount(g: Grid, n: nat, s: set<Pos>, m0: map<Pos, nat>) returns (m: map<Pos, nat>)
    requires Square(g, n) && OnBoard(s, n) && Recorded(m0, g, n)
    ensures Recorded(m, g, n) && m0.Keys <= m.Keys
    ensures forall p :: p in s && (Neighbours(g, n, p.0, p.1) == 2 || Neighbours(g, n, p.0, p.1) == 3) ==> p in m
  {
    m := m0;
    var todo := s;
    while todo != {}
      invariant todo <= s && Recorded(m, g, n) && m0.Keys <= m.Keys
      invariant forall p :: p in s && p !in todo && (Neighbours(g, n, p.0, p.1) == 2 || Neighbours(g, n, p.0, p.1) == 3) ==> p in m
      decreases |todo|
    {
      var p :| p in todo;
      var count := CountAround(g, n, p.0, p.1);
      if count == 2 || count == 3 {
        m := m[p := count];
      }
      todo := todo - {p};
    }
  }

  /** The cell a recorded entry leaves alive: three neighbours, or two or three and already alive. */
  predicate Revived(m: map<Pos, nat>, g: Grid, n: nat, a: int, b: int)
    requires Square(g, n) && InGrid(n, (a, b))
  {
    (a, b) in m && (m[(a, b)] == 3 || g[a][b])
  }

  /** A cell of grid set alive. */
  function Raise(grid: Grid, n: nat, a: int, b: int): (h: Grid)
    requires Square(grid, n) && InGrid(n, (a, b))
    ensures Square(h, n)
    ensures forall x, y :: 0 <= x < n && 0 <= y < n ==> h[x][y] == (grid[x][y] || (x == a && y == b))
  {
    grid[a := grid[a][b := true]]
  }

  /** The last pass: each recorded cell with count 3, or alive now, is set alive in the dead copy. */
  method Apply(g: Grid, n: nat, m: map<Pos, nat>, grid0: Grid) returns (grid: Grid)
    requires Square(g, n) && Recorded(m, g, n) && grid0 == Dead(n)
    ensures Square(grid, n)
    ensures forall a, b :: 0 <= a < n && 0 <= b < n ==> grid[a][b] == Revived(m, g, n, a, b)
  {
    grid := grid0;
    var todo := m.Keys;
    while todo != {}
      invariant todo <= m.Keys && Square(grid, n)
      invariant forall a, b :: 0 <= a < n && 0 <= b < n ==> grid[a][b] == ((a, b) !in todo && Revived(m, g, n, a, b))
      decreases |todo|
    {
      var p :| p in todo;
      if m[p] == 3 {
        grid := Raise(grid, n, p.0, p.1);
      } else if g[p.0][p.1] {
        grid := Raise(grid, n, p.0, p.1);
      }
      todo := todo - {p};
    }
  }

  /** The three passes together give the B3/S23 generation. */
  lemma RecordedStep(g: Grid, n: nat, s: set<Pos>, m1: map<Pos, nat>, m: map<Pos, nat>, grid: Grid)
    requires Square(g, n) && Square(grid, n) && Recorded(m, g, n) && m1.Keys <= m.Keys
    requires RowsSurveyed(s, m1, g, n, n)
    requires forall p :: p in s && (Neighbours(g, n, p.0, p.1) == 2 || Neighbours(g, n, p.0, p.1) == 3) ==> p in m
    requires forall a, b :: 0 <= a < n && 0 <= b < n ==> grid[a][b] == Revived(m, g, n, a, b)
    ensures grid == Step(g, n)
  {
    forall a, b | 0 <= a < n && 0 <= b < n
      ensures grid[a][b] == Step(g, n)[a][b]
    {
      RevivedIff(g, n, s, m1, m, a, b);
    }
    GridExt(grid, Step(g, n), n);
  }

  lemma RevivedIff(g: Grid, n: nat, s: set<Pos>, m1: map<Pos, nat>, m: map<Pos, nat>, a: int, b: int)
    requires Square(g, n) && InGrid(n, (a, b)) && Recorded(m, g, n) && m1.Keys <= m.Keys
    requires RowsSurveyed(s, m1, g, n, n)
    requires forall p :: p in s && (Neighbours(g, n, p.0, p.1) == 2 || Neighbours(g, n, p.0, p.1) == 3) ==> p in m
    ensures Revived(m, g, n, a, b) == NextAlive(g, n, a, b)
  {
    var k := Neighbours(g, n, a, b);
    if k == 3 {
      NeighbourOfLive(g, n, a, b);
      var q: Pos, u: nat :| u <= 8 && u != 4 && LiveAt(g, n, q) && Off(q.0, q.1, u) == (a, b);
      assert Surveyed(s, m1, g, n, q.0, q.1);
      assert (a, b) in s;
    } else if g[a][b] && k == 2 {
      assert Surveyed(s, m1, g, n, a, b);
    }
  }

  /** One generation: the three passes writing into a condition built by the zeros constructor. */
  method StepOnce(cur: Condition) returns (next: Condition)
    requires Valid(cur)
    ensures next == Condition(cur.size, Step(cur.state, cur.size), 0, true)
  {
    var n, g := cur.size, cur.state;
    var copy := MakeZeros(n);
    var s, m1 := SurveyAll(g, n);
    var m := Recount(g, n, s, m1);
    var grid := Apply(g, n, m, copy.state);
    RecordedStep(g, n, s, m1, m, grid);
    next := Condition(n, grid, copy.alive, copy.stationary);
  }

  // ----- constructors -----

  /** The zeros constructor: a dead board, 0 live cells and stationary, without running CountOptValue. */
  method MakeZeros(n: nat) returns (c: Condition)
    requires n < U32
    ensures c == Condition(n, Dead(n), 0, true)
  {
    var g := DeadGrid(n);
    c := Condition(n, g, 0, true);
  }

  /** The nested push_back loops that fill a size × size board with false. */
  method DeadGrid(n: nat) returns (g: Grid)
    ensures g == Dead(n)
  {
    g := [];
    var i := 0;
    while i < n
      invariant 0 <= i <= n && |g| == i
      invariant forall a :: 0 <= a < i ==> g[a] == seq(n, y => false)
    {
      var row: seq<bool> := [];
      var j := 0;
      while j < n
        invariant 0 <= j <= n && row == seq(j, y => false)
      {
        row := row + [false];
        j := j + 1;
      }
      g := g + [row];
      i := i + 1;
    }
    assert forall a :: 0 <= a < n ==> g[a] == Dead(n)[a];
  }

  /** The planer constructor: the dead board with the glider's five cells set, then CountOptValue. */
  method MakePlaner(n: nat) returns (c: Condition)
    requires 3 <= n < U32
    ensures c == Scored(n, PlanerGrid(n))
  {
    var g := DeadGrid(n);
    g := Raise(g, n, 2, 0);
    g := Raise(g, n, 2, 1);
    g := Raise(g, n, 2, 2);
    g := Raise(g, n, 1, 2);
    g := Raise(g, n, 0, 1);
    assert forall a, b :: 0 <= a < n && 0 <= b < n ==> g[a][b] == PlanerGrid(n)[a][b];
    GridExt(g, PlanerGrid(n), n);
    c := CountOptValue(Condition(n, g, 0, false));
  }

  /** The state constructor: it refuses a vector that is not size × size, then runs CountOptValue. */
  method FromState(n: nat, state: Grid) returns (r: Result<Condition, LifeError>)
    requires n < U32
    ensures r.Success? <==> Square(state, n)
    ensures r.Success? ==> r.value == Scored(n, state)
    ensures r.Failure? ==> r.error == NotSquare
  {
    if |state| != n {
      return Failure(NotSquare);
    }
    var i := 0;
    while i < |state|
      invariant 0 <= i <= |state|
      invariant forall a :: 0 <= a < i ==> |state[a]| == n
    {
      if |state[i]| != n {
        return Failure(NotSquare);
      }
      i := i + 1;
    }
    var c := CountOptValue(Condition(n, state, 0, false));
    return Success(c);
  }

  // ----- SkipConditions and what is built on it -----

  /** SkipConditions: the one-generation body run steps times on a copy of the condition. */
  method SkipConditions(c: Condition, steps: int) returns (r: Condition)
    requires Valid(c)
    ensures r == Skip(c, steps)
  {
    r := c;
    var step := 0;
    while step < steps
      invariant 0 <= step && (steps >= 0 ==> step <= steps) && (steps <= 0 ==> step == 0)
      invariant r == Skip(c, step)
    {
      assert Generations(c.state, c.size, step + 1) == Step(Generations(c.state, c.size, step), c.size);
      r := StepOnce(r);
      step := step + 1;
    }
  }

  /** operator==: sizes first, then the cells row by row, stopping at the first difference. */
  method Equals(a: Condition, b: Condition) returns (eq: bool)
    requires Valid(a) && Valid(b)
    ensures eq == Same(a, b)
  {
    if a.size != b.size {
      return false;
    }
    var n := a.size;
    var i := 0;
    while i < n
      invariant 0 <= i <= n
      invariant forall x, y :: 0 <= x < i && 0 <= y < n ==> a.state[x][y] == b.state[x][y]
    {
      var j := 0;
      while j < n
        invariant 0 <= j <= n
        invariant forall y :: 0 <= y < j ==> a.state[i][y] == b.state[i][y]
      {
        if a.state[i][j] != b.state[i][j] {
          return false;
        }
        j := j + 1;
      }
      i := i + 1;
    }
    return true;
  }

  /** IsStationary: SkipConditions(1) compared with the condition itself. */
  method IsStationary(c: Condition) returns (b: bool)
    requires Valid(c)
    ensures b == Stationary(c)
  {
    var next := SkipConditions(c, 1);
    b := Equals(next, c);
  }

  /** ToString: the rows one after another, a mark per cell and a line break per row. */
  method ToString(c: Condition) returns (res: string)
    requires Valid(c)
    ensures res == Render(c.state)
  {
    var n, g := c.size, c.state;
    res := "";
    var i := 0;
    while i < n
      invariant 0 <= i <= n
      invariant res == Render(g[..i])
    {
      var line := RowString(g[i]);
      assert g[..i + 1][..i] == g[..i] && g[..i + 1][i] == g[i];
      res := res + line;
      i := i + 1;
    }
    assert g[..n] == g;
  }

  /** One row of ToString: a mark per cell, then the line break. */
  method RowString(row: seq<bool>) returns (line: string)
    ensures line == RowText(row)
  {
    line := "";
    var j := 0;
    while j < |row|
      invariant 0 <= j <= |row| && |line| == j
      invariant forall k :: 0 <= k < j ==> line[k] == (if row[k] then 'X' else '-')
    {
      line := line + [if row[j] then 'X' else '-'];
      j := j + 1;
    }
    line := line + "\n";
    assert line == RowText(row);
  }

  /** The live cells of a board, row by row. */
  method CountCells(g: Grid) returns (count: nat)
    ensures count == CountAlive(g)
  {
    count := 0;
    var i := 0;
    while i < |g|
      invariant 0 <= i <= |g| && count == CountAlive(g[..i])
    {
      var row := g[i];
      var rowCount := 0;
      var j := 0;
      while j < |row|
        invariant 0 <= j <= |row| && rowCount == RowAlive(row[..j])
      {
        if row[j] {
          rowCount := rowCount + 1;
        }
        assert row[..j + 1][..j] == row[..j];
        j := j + 1;
      }
      assert row[..|row|] == row;
      assert g[..i + 1][..i] == g[..i];
      count := count + rowCount;
      i := i + 1;
    }
    assert g[..|g|] == g;
  }

  /** CountOptValue: 100 steps, the live cells counted, and whether that state is stationary. */
  method CountOptValue(c: Condition) returns (r: Condition)
    requires Valid(c)
    ensures r == Scored(c.size, c.state)
  {
    var later := SkipConditions(c, 100);
    var count := CountCells(later.state);
    var still := IsStationary(later);
    r := Condition(c.size, c.state, count, still);
  }
}
