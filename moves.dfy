/**
  Operations that fill a fresh matrix by writing, through operator[], one
  cell for each cell they visit of another store: transpose, the copy of a
  slice, and the matrix product.  The writes are described once, generically,
  by `Moves`, and each operation's result is characterized by a lemma.
 */
module CellMoves {
  import opened Wrappers
  import opened Sparse


  /** Σ_{s=1..n} a(i, s) * b(s, j). */
  function Dot(a: Store, b: Store, i: nat, j: nat, n: nat): int {
    if n == 0 then 0 else Dot(a, b, i, j, n - 1) + Get(a, (i, n)) * Get(b, (n, j))
  }

  /**
    The operations that walk the cells of a store and write, through
    operator[], one cell for each: the `m[x] += b[x]` of operator+=
    (Identity), the `res[x] = v` of transpose (Swap) and of building a
    matrix from a slice (Window: rows r0 + 1 .. r0 + h and columns
    c0 + 1 .. c0 + w, renumbered from (1, 1)), and the matrix product of
    the visited store with `b` over an inner dimension `n` (Product).
   */
  datatype Move = Identity | Swap | Window(r0: nat, c0: nat, h: nat, w: nat) | Product(b: Store, n: nat)

  /** Position `k` of a slice starting after row r0 and column c0, in the parent's numbering. */
  function Shift(k: Cell, r0: nat, c0: nat): Cell {
    (k.0 + r0, k.1 + c0)
  }

  predicate InWindow(c: Cell, r0: nat, c0: nat, h: nat, w: nat) {
    r0 < c.0 <= r0 + h && c0 < c.1 <= c0 + w
  }

  /** The write an operation performs when it visits cell `c` of `s`, if any. */
  function Moved(m: Move, s: Store, c: Cell): Option<Write> {
    match m
    case Identity => Some((c, Get(s, c)))
    case Swap => Some(((c.1, c.0), Get(s, c)))
    case Window(r0, c0, h, w) =>
      if InWindow(c, r0, c0, h, w) then Some(((c.0 - r0, c.1 - c0), Get(s, c))) else None
    case Product(b, n) => Some((c, Dot(s, b, c.0, c.1, n)))
  }

  /** The value an operation writes at target position `k`. */
  function Source(m: Move, s: Store, k: Cell): int {
    match m
    case Identity => Get(s, k)
    case Swap => Get(s, (k.1, k.0))
    case Window(r0, c0, _, _) => Get(s, Shift(k, r0, c0))
    case Product(b, n) => Dot(s, b, k.0, k.1, n)
  }

  /** The writes of an operation visiting the cells `cs` in order. */
  function Moves(m: Move, s: Store, cs: seq<Cell>): (ws: seq<Write>)
    ensures forall k :: 0 <= k < |ws| ==> ws[k].1 == Source(m, s, ws[k].0)
  {
    if |cs| == 0 then []
    else
      var front := Moves(m, s, cs[..|cs| - 1]);
      match Moved(m, s, cs[|cs| - 1])
      case None => front
      case Some(w) => front + [w]
  }

  /** The positions an operation writes when it visits the cells of `d`. */
  function Image(m: Move, s: Store, d: set<Cell>): set<Cell> {
    set c | c in d && Moved(m, s, c).Some? :: Moved(m, s, c).value.0
  }

  /** What an operation visiting the cells of `d` writes, as one map. */
  function MovedStore(m: Move, s: Store, d: set<Cell>): Store {
    map k | k in Image(m, s, d) :: Source(m, s, k)
  }

  function Elems(cs: seq<Cell>): set<Cell> {
    set c | c in cs
  }

  /** In a strictly ascending sequence every element is new, so each one adds to the count. */
  lemma ElemsNext(cs: seq<Cell>, i: nat)
    requires Ascending(cs) && i < |cs|
    ensures Elems(cs[..i + 1]) == Elems(cs[..i]) + {cs[i]}
    ensures |Elems(cs[..i + 1])| == |Elems(cs[..i])| + 1
  {
    assert cs[..i + 1] == cs[..i] + [cs[i]];
    assert cs[i] !in Elems(cs[..i]) by {
      forall k | 0 <= k < i ensures cs[k] != cs[i] {
        assert Before(cs[k], cs[i]);
      }
    }
  }

  lemma {:induction false} MovesTargets(m: Move, s: Store, cs: seq<Cell>)
    ensures Targets(Moves(m, s, cs)) == Image(m, s, Elems(cs))
  {
    if |cs| > 0 {
      var front := cs[..|cs| - 1];
      var c := cs[|cs| - 1];
      MovesTargets(m, s, front);
      ElemsSnoc(cs);
      ImageAdd(m, s, Elems(front), c);
      match Moved(m, s, c)
      case None =>
      case Some(w) =>
        var ws := Moves(m, s, front) + [w];
        assert ws[..|ws| - 1] == Moves(m, s, front);
    }
  }

  lemma ElemsSnoc(cs: seq<Cell>)
    requires |cs| > 0
    ensures Elems(cs) == Elems(cs[..|cs| - 1]) + {cs[|cs| - 1]}
  {
    assert cs == cs[..|cs| - 1] + [cs[|cs| - 1]];
  }

  lemma ImageAdd(m: Move, s: Store, d: set<Cell>, c: Cell)
    ensures Moved(m, s, c).None? ==> Image(m, s, d + {c}) == Image(m, s, d)
    ensures Moved(m, s, c).Some? ==> Image(m, s, d + {c}) == Image(m, s, d) + {Moved(m, s, c).value.0}
  {
  }

  lemma {:induction false} OverlaySource(m: Move, s: Store, ws: seq<Write>)
    requires forall k :: 0 <= k < |ws| ==> ws[k].1 == Source(m, s, ws[k].0)
    ensures Overlay(map[], ws) == map k | k in Targets(ws) :: Source(m, s, k)
  {
    if |ws| > 0 {
      OverlaySource(m, s, ws[..|ws| - 1]);
      OverlayKeys(map[], ws);
    }
  }

  /**
    What every later read sees after an operation has written, through
    operator[], one cell for each visited cell of `cs` into a fresh matrix.
   */
  lemma MovesRead(m: Move, s: Store, cs: seq<Cell>, eps: real)
    ensures Prune(AssignAll(map[], Moves(m, s, cs), eps), eps) == Prune(MovedStore(m, s, Elems(cs)), eps)
  {
    var ws := Moves(m, s, cs);
    PrunedAssignAll(ws, eps);
    OverlaySource(m, s, ws);
    MovesTargets(m, s, cs);
  }

  /** The visiting order of an operation over the cells of a store: ascending. */
  lemma OrderedElems(d: set<Cell>)
    ensures Elems(Ordered(d)) == d
  {
  }

  /** Transposition: position (r, c) of the result holds element (c, r). */
  lemma TransposeMeaning(s: Store)
    ensures forall k :: k in MovedStore(Swap, s, s.Keys) <==> (k.1, k.0) in s
    ensures forall k :: k in MovedStore(Swap, s, s.Keys) ==> MovedStore(Swap, s, s.Keys)[k] == s[(k.1, k.0)]
  {
    forall k: Cell | (k.1, k.0) in s ensures k in Image(Swap, s, s.Keys) {
      assert Moved(Swap, s, (k.1, k.0)).value.0 == k;
    }
  }

  /** A slice copied out: position (r, c) holds element (r0 + r, c0 + c) of the window. */
  lemma WindowMeaning(s: Store, r0: nat, c0: nat, h: nat, w: nat)
    ensures forall k: Cell :: k in MovedStore(Window(r0, c0, h, w), s, s.Keys) <==>
      InShape(k, h, w) && Shift(k, r0, c0) in s
    ensures forall k: Cell :: k in MovedStore(Window(r0, c0, h, w), s, s.Keys) ==>
      MovedStore(Window(r0, c0, h, w), s, s.Keys)[k] == Get(s, Shift(k, r0, c0))
  {
    WindowKeys(s, r0, c0, h, w);
    MovedStoreValues(Window(r0, c0, h, w), s, s.Keys);
  }

  /** One position of a slice copied out. */
  lemma WindowAt(s: Store, r0: nat, c0: nat, h: nat, w: nat, k: Cell)
    requires InShape(k, h, w)
    ensures Get(MovedStore(Window(r0, c0, h, w), s, s.Keys), k) == Get(s, Shift(k, r0, c0))
  {
    WindowMeaning(s, r0, c0, h, w);
  }

  lemma MovedStoreValues(m: Move, s: Store, d: set<Cell>)
    ensures forall k: Cell :: k in MovedStore(m, s, d) ==> MovedStore(m, s, d)[k] == Source(m, s, k)
  {
  }

  lemma WindowKeys(s: Store, r0: nat, c0: nat, h: nat, w: nat)
    ensures forall k: Cell :: k in Image(Window(r0, c0, h, w), s, s.Keys) <==>
      InShape(k, h, w) && Shift(k, r0, c0) in s
  {
    var m := Window(r0, c0, h, w);
    forall k: Cell | InShape(k, h, w) && Shift(k, r0, c0) in s ensures k in Image(m, s, s.Keys) {
      WindowHit(s, r0, c0, h, w, k);
    }
    forall k: Cell | k in Image(m, s, s.Keys) ensures InShape(k, h, w) && Shift(k, r0, c0) in s {
      var c: Cell :| c in s.Keys && Moved(m, s, c).Some? && Moved(m, s, c).value.0 == k;
      assert c == Shift(k, r0, c0);
    }
  }

  lemma WindowHit(s: Store, r0: nat, c0: nat, h: nat, w: nat, k: Cell)
    requires InShape(k, h, w) && Shift(k, r0, c0) in s
    ensures k in Image(Window(r0, c0, h, w), s, s.Keys)
  {
    var c: Cell := Shift(k, r0, c0);
    assert Moved(Window(r0, c0, h, w), s, c).value.0 == k;
  }

  // ----- row-major order over a grid: the loops of operator*= -----

  /** (r, 1), ..., (r, cols). */
  function RowCells(r: nat, cols: nat): seq<Cell> {
    if cols == 0 then [] else RowCells(r, cols - 1) + [(r, cols)]
  }

  /** All positions of a rows x cols matrix, row by row. */
  function RowMajor(rows: nat, cols: nat): seq<Cell> {
    if rows == 0 then [] else RowMajor(rows - 1, cols) + RowCells(rows, cols)
  }

  lemma {:induction false} RowCellsElems(r: nat, cols: nat)
    ensures forall x :: x in RowCells(r, cols) <==> x.0 == r && 1 <= x.1 <= cols
  {
    if cols > 0 {
      RowCellsElems(r, cols - 1);
    }
  }

  lemma {:induction false} RowMajorElems(rows: nat, cols: nat)
    ensures forall x :: x in RowMajor(rows, cols) <==> InShape(x, rows, cols)
  {
    if rows > 0 {
      RowMajorElems(rows - 1, cols);
      RowCellsElems(rows, cols);
    }
  }

  /** The product: every position of the rows x cols result holds the sum of products. */
  lemma ProductMeaning(a: Store, b: Store, rows: nat, cols: nat, n: nat)
    ensures forall k :: k in MovedStore(Product(b, n), a, Elems(RowMajor(rows, cols))) <==> InShape(k, rows, cols)
    ensures forall k :: k in MovedStore(Product(b, n), a, Elems(RowMajor(rows, cols))) ==>
      MovedStore(Product(b, n), a, Elems(RowMajor(rows, cols)))[k] == Dot(a, b, k.0, k.1, n)
  {
    RowMajorElems(rows, cols);
    var m := Product(b, n);
    forall k | InShape(k, rows, cols) ensures k in Image(m, a, Elems(RowMajor(rows, cols))) {
      assert Moved(m, a, k).value.0 == k;
    }
  }

  /** The increments of operator+=: one write per visited cell, its own value. */
  lemma {:induction false} CopyMoves(b: Store, cs: seq<Cell>)
    ensures |Moves(Identity, b, cs)| == |cs|
    ensures forall i :: 0 <= i < |cs| ==> Moves(Identity, b, cs)[i] == (cs[i], Get(b, cs[i]))
  {
    if |cs| > 0 {
      CopyMoves(b, cs[..|cs| - 1]);
    }
  }

  /** Visiting every stored cell of `b` once, in ascending order, adds all of `b`. */
  lemma CopyIncrements(b: Store)
    ensures IncrementsOf(Moves(Identity, b, Ordered(b.Keys)), b)
    ensures Targets(Moves(Identity, b, Ordered(b.Keys))) == b.Keys
  {
    var cs := Ordered(b.Keys);
    OrderedElems(b.Keys);
    CopyWrites(b, cs);
    CopyTargets(b, cs);
  }

  lemma CopyWrites(b: Store, cs: seq<Cell>)
    requires Ascending(cs) && Elems(cs) == b.Keys
    ensures IncrementsOf(Moves(Identity, b, cs), b)
  {
    CopyMoves(b, cs);
    AscendingDistinct(cs);
    var ws := Moves(Identity, b, cs);
    forall k | 0 <= k < |ws| ensures ws[k].0 in b && ws[k].1 == b[ws[k].0] {
      assert cs[k] in Elems(cs);
    }
  }

  lemma CopyTargets(b: Store, cs: seq<Cell>)
    requires Elems(cs) == b.Keys
    ensures Targets(Moves(Identity, b, cs)) == b.Keys
  {
    MovesTargets(Identity, b, cs);
    forall c | c in b.Keys ensures c in Image(Identity, b, Elems(cs)) {
      assert Moved(Identity, b, c).value.0 == c;
    }
  }


  /** One more visited cell of transpose: one more write, of its element at the swapped position. */
  lemma SwapNext(s: Store, cs: seq<Cell>, i: nat, eps: real)
    requires i < |cs| && cs[i] in s
    ensures AssignAll(map[], Moves(Swap, s, cs[..i + 1]), eps)
      == Assign(AssignAll(map[], Moves(Swap, s, cs[..i]), eps), (cs[i].1, cs[i].0), s[cs[i]], eps)
  {
    AssignMovesNext(Swap, s, cs, i, eps);
  }

  /** One more visited cell of the copy of a slice: one more write when it lies in the window. */
  lemma WindowNext(s: Store, cs: seq<Cell>, i: nat, r0: nat, c0: nat, h: nat, w: nat, eps: real)
    requires i < |cs| && cs[i] in s
    ensures InWindow(cs[i], r0, c0, h, w) ==>
      AssignAll(map[], Moves(Window(r0, c0, h, w), s, cs[..i + 1]), eps)
      == Assign(AssignAll(map[], Moves(Window(r0, c0, h, w), s, cs[..i]), eps), (cs[i].0 - r0, cs[i].1 - c0), s[cs[i]], eps)
    ensures !InWindow(cs[i], r0, c0, h, w) ==>
      AssignAll(map[], Moves(Window(r0, c0, h, w), s, cs[..i + 1]), eps)
      == AssignAll(map[], Moves(Window(r0, c0, h, w), s, cs[..i]), eps)
  {
    AssignMovesNext(Window(r0, c0, h, w), s, cs, i, eps);
  }

  /** WindowNext for the stores before and after the step of the loop. */
  lemma WindowStep(s: Store, cs: seq<Cell>, i: nat, r0: nat, c0: nat, h: nat, w: nat, eps: real, before: Store, after: Store)
    requires i < |cs| && cs[i] in s
    requires before == AssignAll(map[], Moves(Window(r0, c0, h, w), s, cs[..i]), eps)
    requires InWindow(cs[i], r0, c0, h, w) ==> after == Assign(before, (cs[i].0 - r0, cs[i].1 - c0), s[cs[i]], eps)
    requires !InWindow(cs[i], r0, c0, h, w) ==> after == before
    ensures after == AssignAll(map[], Moves(Window(r0, c0, h, w), s, cs[..i + 1]), eps)
  {
    WindowNext(s, cs, i, r0, c0, h, w, eps);
  }

  lemma AssignMovesNext(m: Move, s: Store, cs: seq<Cell>, i: nat, eps: real)
    requires i < |cs|
    ensures Moved(m, s, cs[i]).None? ==>
      AssignAll(map[], Moves(m, s, cs[..i + 1]), eps) == AssignAll(map[], Moves(m, s, cs[..i]), eps)
    ensures Moved(m, s, cs[i]).Some? ==>
      AssignAll(map[], Moves(m, s, cs[..i + 1]), eps)
      == Assign(AssignAll(map[], Moves(m, s, cs[..i]), eps), Moved(m, s, cs[i]).value.0, Moved(m, s, cs[i]).value.1, eps)
  {
    var pre := cs[..i + 1];
    assert pre[..|pre| - 1] == cs[..i];
    assert pre[|pre| - 1] == cs[i];
    var front := Moves(m, s, cs[..i]);
    match Moved(m, s, cs[i])
    case None =>
      assert Moves(m, s, pre) == front;
    case Some(w) =>
      var ws := front + [w];
      assert Moves(m, s, pre) == ws;
      assert ws[..|ws| - 1] == front && ws[|ws| - 1] == w;
  }

  /** operator*= writes position (i, j) after (i, 1), ..., (i, j - 1). */
  lemma ProductNext(b: Store, n: nat, a: Store, pre: seq<Cell>, i: nat, j: nat, eps: real)
    requires j >= 1
    ensures AssignAll(map[], Moves(Product(b, n), a, pre + RowCells(i, j)), eps)
      == Assign(AssignAll(map[], Moves(Product(b, n), a, pre + RowCells(i, j - 1)), eps), (i, j), Dot(a, b, i, j, n), eps)
  {
    var m := Product(b, n);
    var cs := pre + RowCells(i, j);
    assert cs[..|cs| - 1] == pre + RowCells(i, j - 1);
    var front := Moves(m, a, pre + RowCells(i, j - 1));
    var ws := front + [((i, j), Dot(a, b, i, j, n))];
    assert Moves(m, a, cs) == ws;
    assert ws[..|ws| - 1] == front;
  }

  /**
    What operator*= has written into the fresh product after the first k
    rows and the first j positions of row k + 1.
   */
  function ProductSoFar(a: Store, b: Store, n: nat, k: nat, cols: nat, j: nat, eps: real): Store {
    AssignAll(map[], Moves(Product(b, n), a, RowMajor(k, cols) + RowCells(k + 1, j)), eps)
  }

  /** Writing the product's element (k + 1, j) extends what has been written. */
  lemma ProductSoFarNext(a: Store, b: Store, n: nat, k: nat, cols: nat, j: nat, eps: real,
                         before: Store, after: Store, v: int)
    requires j >= 1 && before == ProductSoFar(a, b, n, k, cols, j - 1, eps)
    requires v == Dot(a, b, k + 1, j, n) && after == Assign(before, (k + 1, j), v, eps)
    ensures after == ProductSoFar(a, b, n, k, cols, j, eps)
  {
    ProductNext(b, n, a, RowMajor(k, cols), k + 1, j, eps);
  }

  /** A finished row starts the next one. */
  lemma ProductRowDone(a: Store, b: Store, n: nat, k: nat, cols: nat, eps: real)
    ensures ProductSoFar(a, b, n, k, cols, cols, eps) == ProductSoFar(a, b, n, k + 1, cols, 0, eps)
  {
    assert RowMajor(k + 1, cols) + RowCells(k + 2, 0) == RowMajor(k, cols) + RowCells(k + 1, cols);
  }

  lemma ProductDone(a: Store, b: Store, n: nat, rows: nat, cols: nat, eps: real)
    ensures ProductSoFar(a, b, n, rows, cols, 0, eps) == AssignAll(map[], Moves(Product(b, n), a, RowMajor(rows, cols)), eps)
  {
    assert RowMajor(rows, cols) + RowCells(rows + 1, 0) == RowMajor(rows, cols);
  }

  /** Transposing twice gives back the elements. */
  lemma SwapTwice(s: Store)
    ensures MovedStore(Swap, MovedStore(Swap, s, s.Keys), MovedStore(Swap, s, s.Keys).Keys) == s
  {
    var t := MovedStore(Swap, s, s.Keys);
    TransposeMeaning(s);
    TransposeMeaning(t);
  }
}
