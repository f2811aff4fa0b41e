/**
  The storage of Matrix<int> in 1/src/matrix.h as a value: the nested map
  map_ (row -> column -> element) flattened to one map from (row, column)
  to element, the threshold eps below which an element counts as zero, and
  what the element-level primitives of the class do to it:

    - delete_zeros removes every element whose magnitude is below eps;
    - operator[] prunes, then creates a 0 at an absent position;
    - operators that write cell after cell through operator[] therefore
      leave a "lazily pruned" store: what every write left behind, pruned
      at each step except after the last write.

  An empty inner row map has no observable effect (no reader counts rows),
  so the flattened map loses nothing.
 */
module Sparse {
  import opened Wrappers
  import opened Machine

  /** A (row, column) position; positions of a matrix are 1-based. */
  type Cell = (nat, nat)

  /** The contents of map_. */
  type Store = map<Cell, int>

  /** One write `m[{r, c}] = v` of a cell-by-cell operation. */
  type Write = (Cell, int)

  /** The element test of delete_zeros: abs(elem) < eps. */
  predicate Small(v: int, eps: real) {
    Abs(v) as real < eps
  }

  /** is_zero(eps): |eps| < 1e-10. */
  predicate IsZero(eps: real) {
    (if eps < 0.0 then -eps else eps) < 0.0000000001
  }

  /** What delete_zeros leaves: the elements that are not small. */
  function Prune(s: Store, eps: real): Store {
    map x | x in s && !Small(s[x], eps) :: s[x]
  }

  /** The element a read sees at `x` of a store: the stored value or 0. */
  function Get(s: Store, x: Cell): int {
    if x in s then s[x] else 0
  }

  /** 1 <= row <= rows and 1 <= column <= cols. */
  predicate InShape(x: Cell, rows: nat, cols: nat) {
    1 <= x.0 <= rows && 1 <= x.1 <= cols
  }

  /** Every stored position lies inside the matrix. */
  predicate InRange(s: Store, rows: nat, cols: nat) {
    forall x :: x in s ==> InShape(x, rows, cols)
  }

  lemma {:induction false} PruneTwice(s: Store, eps: real)
    ensures Prune(Prune(s, eps), eps) == Prune(s, eps)
  {
  }

  /** A store with no small element is left alone by pruning. */
  lemma PruneNone(s: Store, eps: real)
    requires forall x :: x in s ==> !Small(s[x], eps)
    ensures Prune(s, eps) == s
  {
  }

  /** With a threshold that is not positive nothing is ever small. */
  lemma NonPositiveThreshold(s: Store, eps: real)
    requires eps <= 0.0
    ensures Prune(s, eps) == s
  {
  }

  // ----- operator[] and the writes through the reference it returns -----

  /** `m[x]`: prune, then create a stored 0 when `x` is absent. */
  function Touch(s: Store, x: Cell, eps: real): (r: Store)
    ensures x in r
  {
    var p := Prune(s, eps);
    if x in p then p else p[x := 0]
  }

  /** `m[x] = v`. */
  function Assign(s: Store, x: Cell, v: int, eps: real): Store {
    Touch(s, x, eps)[x := v]
  }

  /** `m[x] += v`. */
  function AddTo(s: Store, x: Cell, v: int, eps: real): Store {
    var t := Touch(s, x, eps);
    t[x := t[x] + v]
  }

  /** A write reads back as written, unless it is small and the next read prunes it. */
  lemma WriteThenRead(s: Store, x: Cell, v: int, eps: real)
    ensures Get(Prune(Assign(s, x, v, eps), eps), x) == if Small(v, eps) then 0 else v
    ensures forall y :: y != x ==> Get(Prune(Assign(s, x, v, eps), eps), y) == Get(Prune(s, eps), y)
  {
  }

  /**
    The store after a run of writes through operator[] ending in a write to
    `last`, when `w` holds every value written: everything but the last
    write is pruned; the last write is still there.
   */
  function Lazy(w: Store, last: Cell, eps: real): (r: Store)
    requires last in w
  {
    Prune(w - {last}, eps)[last := w[last]]
  }

  lemma LazyPrune(w: Store, last: Cell, eps: real)
    requires last in w
    ensures Prune(Lazy(w, last, eps), eps) == Prune(w, eps)
  {
    var a := Prune(Lazy(w, last, eps), eps);
    var b := Prune(w, eps);
    assert forall x :: x in a <==> x in b;
    assert forall x :: x in a ==> a[x] == b[x];
  }

  lemma LazyAssign(w: Store, last: Cell, x: Cell, v: int, eps: real)
    requires last in w
    ensures Assign(Lazy(w, last, eps), x, v, eps) == Lazy(w[x := v], x, eps)
  {
    LazyPrune(w, last, eps);
    var a := Assign(Lazy(w, last, eps), x, v, eps);
    var b := Lazy(w[x := v], x, eps);
    assert a == Prune(w, eps)[x := v];
    assert forall y :: y in a <==> y in b;
    assert forall y :: y in a ==> a[y] == b[y];
  }

  lemma AssignEmpty(x: Cell, v: int, eps: real)
    ensures Assign(map[], x, v, eps) == Lazy(map[x := v], x, eps)
  {
    assert Prune(map[], eps) == map[];
    assert (map[x := v] - {x}) == map[];
  }

  lemma LazyAddTo(w: Store, last: Cell, x: Cell, v: int, eps: real)
    requires last in w
    ensures AddTo(Lazy(w, last, eps), x, v, eps) == Lazy(w[x := Get(Prune(w, eps), x) + v], x, eps)
  {
    LazyPrune(w, last, eps);
    var a := AddTo(Lazy(w, last, eps), x, v, eps);
    var b := Lazy(w[x := Get(Prune(w, eps), x) + v], x, eps);
    assert a == Prune(w, eps)[x := Get(Prune(w, eps), x) + v];
    assert forall y :: y in a <==> y in b;
    assert forall y :: y in a ==> a[y] == b[y];
  }

  // ----- ascending (row, column) order: the iteration order of map_ -----

  predicate Before(a: Cell, b: Cell) {
    a.0 < b.0 || (a.0 == b.0 && a.1 < b.1)
  }

  predicate Ascending(cs: seq<Cell>) {
    forall i, j :: 0 <= i < j < |cs| ==> Before(cs[i], cs[j])
  }

  predicate IsLeast(m: Cell, s: set<Cell>) {
    m in s && forall y :: y in s ==> y == m || Before(m, y)
  }

  lemma {:induction false} LeastExists(s: set<Cell>)
    requires s != {}
    ensures exists m :: IsLeast(m, s)
    decreases |s|
  {
    var x :| x in s;
    if s - {x} == {} {
      assert s == {x};
      assert IsLeast(x, s);
    } else {
      LeastExists(s - {x});
      var m :| IsLeast(m, s - {x});
      if Before(x, m) {
        forall y | y in s ensures y == x || Before(x, y) {
          if y != x {
            assert y == m || Before(m, y);
          }
        }
        assert IsLeast(x, s);
      } else {
        assert IsLeast(m, s);
      }
    }
  }

  lemma LeastUnique(a: Cell, b: Cell, s: set<Cell>)
    requires IsLeast(a, s) && IsLeast(b, s)
    ensures a == b
  {
  }

  /** The positions of a store in the order a range-for over map_ visits them. */
  function Ordered(s: set<Cell>): (cs: seq<Cell>)
    ensures Ascending(cs)
    ensures forall x :: x in cs <==> x in s
    ensures |cs| == |s|
    decreases |s|
  {
    if s == {} then []
    else
      LeastExists(s);
      var m :| IsLeast(m, s);
      var rest := Ordered(s - {m});
      assert forall y :: y in rest ==> Before(m, y);
      [m] + rest
  }

  lemma AscendingDistinct(cs: seq<Cell>)
    requires Ascending(cs)
    ensures forall i, j :: 0 <= i < j < |cs| ==> cs[i] != cs[j]
  {
    forall i, j | 0 <= i < j < |cs| ensures cs[i] != cs[j] {
      assert Before(cs[i], cs[j]);
    }
  }

  /** Two ascending sequences of the same positions are the same sequence. */
  lemma {:induction false} AscendingUnique(a: seq<Cell>, b: seq<Cell>)
    requires Ascending(a) && Ascending(b)
    requires forall x :: x in a <==> x in b
    ensures a == b
    decreases |a|
  {
    if a == [] {
      if b != [] {
        assert false;
      }
    } else {
      assert a[0] in a;
      assert b != [];
      assert b[0] in b;
      assert a[0] == b[0] by {
        var j :| 0 <= j < |b| && b[j] == a[0];
        var i :| 0 <= i < |a| && a[i] == b[0];
        if j > 0 {
          assert Before(b[0], a[0]);
          assert i > 0 ==> Before(a[0], b[0]);
        }
      }
      var a', b' := a[1..], b[1..];
      forall x ensures x in a' <==> x in b' {
        if x in a' {
          var i :| 0 <= i < |a'| && a'[i] == x;
          assert a[i + 1] == x && Before(a[0], a[i + 1]);
          assert x in b && x != b[0];
          var j :| 0 <= j < |b| && b[j] == x;
          assert b'[j - 1] == x;
        }
        if x in b' {
          var j :| 0 <= j < |b'| && b'[j] == x;
          assert b[j + 1] == x && Before(b[0], b[j + 1]);
          assert x in a && x != a[0];
          var i :| 0 <= i < |a| && a[i] == x;
          assert a'[i - 1] == x;
        }
      }
      assert Ascending(a') by {
        forall i, j | 0 <= i < j < |a'| ensures Before(a'[i], a'[j]) {
          assert a'[i] == a[i + 1] && a'[j] == a[j + 1];
        }
      }
      assert Ascending(b') by {
        forall i, j | 0 <= i < j < |b'| ensures Before(b'[i], b'[j]) {
          assert b'[i] == b[i + 1] && b'[j] == b[j + 1];
        }
      }
      AscendingUnique(a', b');
      assert a == [a[0]] + a' && b == [b[0]] + b';
    }
  }

  /** The visiting order of a set is the ascending listing of it. */
  lemma OrderedOf(s: set<Cell>, cs: seq<Cell>)
    requires Ascending(cs) && forall x :: x in cs <==> x in s
    ensures Ordered(s) == cs
  {
    AscendingUnique(Ordered(s), cs);
  }

  /** An ascending walk visits each position once. */
  lemma NotEarlier(cs: seq<Cell>, i: nat)
    requires Ascending(cs) && i < |cs|
    ensures cs[i] !in cs[..i]
  {
    forall k | 0 <= k < i ensures cs[k] != cs[i] {
      assert Before(cs[k], cs[i]);
    }
  }

  // ----- folds of cell-by-cell writes -----

  /** The writes applied as plain map updates, later ones overriding. */
  function Overlay(s: Store, ws: seq<Write>): Store {
    if |ws| == 0 then s
    else Overlay(s, ws[..|ws| - 1])[ws[|ws| - 1].0 := ws[|ws| - 1].1]
  }

  /** The writes applied one after the other through operator[]. */
  function AssignAll(s: Store, ws: seq<Write>, eps: real): Store {
    if |ws| == 0 then s
    else Assign(AssignAll(s, ws[..|ws| - 1], eps), ws[|ws| - 1].0, ws[|ws| - 1].1, eps)
  }

  /** The increments applied one after the other through `m[x] += v`. */
  function AddAll(s: Store, ws: seq<Write>, eps: real): Store {
    if |ws| == 0 then s
    else AddTo(AddAll(s, ws[..|ws| - 1], eps), ws[|ws| - 1].0, ws[|ws| - 1].1, eps)
  }

  lemma {:induction false} AssignAllLazy(ws: seq<Write>, eps: real)
    requires |ws| > 0
    ensures ws[|ws| - 1].0 in Overlay(map[], ws)
    ensures AssignAll(map[], ws, eps) == Lazy(Overlay(map[], ws), ws[|ws| - 1].0, eps)
  {
    var n := |ws|;
    var w := ws[n - 1];
    if n == 1 {
      assert ws[..0] == [];
      AssignEmpty(w.0, w.1, eps);
    } else {
      var front := ws[..n - 1];
      AssignAllLazy(front, eps);
      assert front[|front| - 1] == ws[n - 2];
      LazyAssign(Overlay(map[], front), ws[n - 2].0, w.0, w.1, eps);
    }
  }

  /**
    What every later read sees after a run of writes through operator[]
    into an empty matrix: the plain overlay of the writes, pruned.
   */
  lemma PrunedAssignAll(ws: seq<Write>, eps: real)
    ensures Prune(AssignAll(map[], ws, eps), eps) == Prune(Overlay(map[], ws), eps)
  {
    if |ws| > 0 {
      AssignAllLazy(ws, eps);
      LazyPrune(Overlay(map[], ws), ws[|ws| - 1].0, eps);
    }
  }

  /** The keys a list of writes touches. */
  function Targets(ws: seq<Write>): set<Cell> {
    if |ws| == 0 then {} else Targets(ws[..|ws| - 1]) + {ws[|ws| - 1].0}
  }

  lemma {:induction false} TargetsMembers(ws: seq<Write>)
    ensures forall x :: x in Targets(ws) <==> exists k :: 0 <= k < |ws| && ws[k].0 == x
  {
    if |ws| > 0 {
      var front := ws[..|ws| - 1];
      TargetsMembers(front);
      assert forall k :: 0 <= k < |front| ==> front[k] == ws[k];
    }
  }

  lemma {:induction false} OverlayKeys(s: Store, ws: seq<Write>)
    ensures Overlay(s, ws).Keys == s.Keys + Targets(ws)
  {
    if |ws| > 0 {
      OverlayKeys(s, ws[..|ws| - 1]);
    }
  }

  /** The sum of two stores as +=, position by position with 0 for absent. */
  function Added(a: Store, b: Store): (r: Store)
    ensures r.Keys == a.Keys + b.Keys
  {
    map x | x in a.Keys + b.Keys :: Get(a, x) + Get(b, x)
  }

  /** The keys of `b` that `ws` increments, in order, each once. */
  predicate IncrementsOf(ws: seq<Write>, b: Store) {
    (forall k :: 0 <= k < |ws| ==> ws[k].0 in b && ws[k].1 == b[ws[k].0])
    && (forall i, j :: 0 <= i < j < |ws| ==> ws[i].0 != ws[j].0)
  }

  /** `b` restricted to the keys a list of writes touches. */
  function Restrict(b: Store, keys: set<Cell>): Store {
    map x | x in b && x in keys :: b[x]
  }

  /** One more increment, at a position not incremented before. */
  lemma AddedStep(ps: Store, b: Store, t: set<Cell>, x: Cell, wf: Store, u: int, eps: real)
    requires ps == Prune(ps, eps) && x in b && x !in t
    requires wf == Added(ps, Restrict(b, t)) && u == Get(ps, x) + b[x]
    ensures u == Get(Prune(wf, eps), x) + b[x]
    ensures wf[x := u] == Added(ps, Restrict(b, t + {x}))
  {
    AddedUntouched(ps, b, t, x, eps);
    AddedExtend(ps, b, t, x);
  }

  lemma AddedUntouched(ps: Store, b: Store, t: set<Cell>, x: Cell, eps: real)
    requires ps == Prune(ps, eps)
    requires x !in t
    ensures Get(Prune(Added(ps, Restrict(b, t)), eps), x) == Get(ps, x)
  {
    var a := Added(ps, Restrict(b, t));
    assert x !in Restrict(b, t);
    if x in ps {
      assert a[x] == ps[x];
      assert !Small(ps[x], eps);
    } else {
      assert x !in a;
    }
  }

  lemma AddedExtend(ps: Store, b: Store, t: set<Cell>, x: Cell)
    requires x in b && x !in t
    ensures Added(ps, Restrict(b, t))[x := Get(ps, x) + b[x]] == Added(ps, Restrict(b, t + {x}))
  {
    var l := Added(ps, Restrict(b, t))[x := Get(ps, x) + b[x]];
    var r := Added(ps, Restrict(b, t + {x}));
    assert l.Keys == r.Keys;
    forall y | y in l ensures l[y] == r[y] {
      if y != x {
        assert Get(Restrict(b, t), y) == Get(Restrict(b, t + {x}), y);
      }
    }
  }

  lemma AddToIsUpdate(s: Store, x: Cell, v: int, eps: real)
    ensures AddTo(s, x, v, eps) == Prune(s, eps)[x := Get(Prune(s, eps), x) + v]
  {
  }

  lemma LazyOfPruned(s: Store, x: Cell, u: int, eps: real)
    ensures Lazy(Prune(s, eps)[x := u], x, eps) == Prune(s, eps)[x := u]
  {
    var ps := Prune(s, eps);
    assert Prune(ps[x := u] - {x}, eps) == ps - {x};
  }

  lemma AddedOne(ps: Store, b: Store, x: Cell)
    requires x in b
    ensures Added(ps, Restrict(b, {x})) == ps[x := Get(ps, x) + b[x]]
  {
  }

  lemma AddAllFirst(s: Store, w: Write, b: Store, eps: real)
    requires w.0 in b && w.1 == b[w.0]
    ensures w.0 in Added(Prune(s, eps), Restrict(b, {w.0}))
    ensures AddAll(s, [w], eps) == Lazy(Added(Prune(s, eps), Restrict(b, {w.0})), w.0, eps)
  {
    var ps := Prune(s, eps);
    var u := Get(ps, w.0) + w.1;
    assert [w][..0] == [];
    assert AddAll(s, [w], eps) == AddTo(s, w.0, w.1, eps);
    AddToIsUpdate(s, w.0, w.1, eps);
    LazyOfPruned(s, w.0, u, eps);
    AddedOne(ps, b, w.0);
    LazyCong(AddAll(s, [w], eps), ps[w.0 := u], Added(ps, Restrict(b, {w.0})), w.0, eps);
  }

  /** Equal stores give the same lazily pruned store. */
  lemma LazyCong(x: Store, m1: Store, m2: Store, k: Cell, eps: real)
    requires k in m1 && m1 == m2
    requires x == Lazy(m1, k, eps)
    ensures k in m2 && x == Lazy(m2, k, eps)
  {
  }

  lemma AddAllSnoc(s: Store, ws: seq<Write>, wf: Store, last: Cell, u: int, eps: real)
    requires |ws| > 1 && last in wf
    requires AddAll(s, ws[..|ws| - 1], eps) == Lazy(wf, last, eps)
    requires u == Get(Prune(wf, eps), ws[|ws| - 1].0) + ws[|ws| - 1].1
    ensures AddAll(s, ws, eps) == Lazy(wf[ws[|ws| - 1].0 := u], ws[|ws| - 1].0, eps)
  {
    var w := ws[|ws| - 1];
    LazyAddTo(wf, last, w.0, w.1, eps);
  }

  /** The inductive step of AddAllLazy, kept apart so that its context stays small. */
  lemma AddAllStep(s: Store, ws: seq<Write>, b: Store, last: Cell, eps: real)
    requires |ws| > 1
    requires last in Added(Prune(s, eps), Restrict(b, Targets(ws[..|ws| - 1])))
    requires AddAll(s, ws[..|ws| - 1], eps)
          == Lazy(Added(Prune(s, eps), Restrict(b, Targets(ws[..|ws| - 1]))), last, eps)
    requires ws[|ws| - 1].0 in b && ws[|ws| - 1].1 == b[ws[|ws| - 1].0]
    requires ws[|ws| - 1].0 !in Targets(ws[..|ws| - 1])
    ensures AddAll(s, ws, eps) == Lazy(Added(Prune(s, eps), Restrict(b, Targets(ws))), ws[|ws| - 1].0, eps)
  {
    var w := ws[|ws| - 1];
    var front := ws[..|ws| - 1];
    var ps := Prune(s, eps);
    PruneTwice(s, eps);
    var wf := Added(ps, Restrict(b, Targets(front)));
    var u := Get(ps, w.0) + b[w.0];
    AddedStep(ps, b, Targets(front), w.0, wf, u, eps);
    AddAllSnoc(s, ws, wf, last, u, eps);
    var next := wf[w.0 := u];
    RestrictCong(ps, b, Targets(front) + {w.0}, Targets(ws));
    LazyCong(AddAll(s, ws, eps), next, Added(ps, Restrict(b, Targets(ws))), w.0, eps);
  }

  lemma RestrictCong(ps: Store, b: Store, t1: set<Cell>, t2: set<Cell>)
    requires t1 == t2
    ensures Added(ps, Restrict(b, t1)) == Added(ps, Restrict(b, t2))
  {
  }

  lemma {:induction false} AddAllLazy(s: Store, ws: seq<Write>, b: Store, eps: real)
    requires |ws| > 0
    requires IncrementsOf(ws, b)
    ensures ws[|ws| - 1].0 in Added(Prune(s, eps), Restrict(b, Targets(ws)))
    ensures AddAll(s, ws, eps) == Lazy(Added(Prune(s, eps), Restrict(b, Targets(ws))), ws[|ws| - 1].0, eps)
  {
    var n := |ws|;
    var w := ws[n - 1];
    var front := ws[..n - 1];
    if n == 1 {
      assert front == [] && ws == [w];
      assert Targets(ws) == {w.0};
      AddAllFirst(s, w, b, eps);
    } else {
      assert IncrementsOf(front, b);
      AddAllLazy(s, front, b, eps);
      assert front[|front| - 1] == ws[n - 2];
      assert w.0 !in Targets(front) by {
        TargetsMembers(front);
        forall k | 0 <= k < |front| ensures front[k].0 != w.0 {
          assert front[k] == ws[k];
        }
      }
      AddAllStep(s, ws, b, ws[n - 2].0, eps);
    }
  }

  /**
    What every later read sees after `m[x] += v` for each (x, v) of `b`,
    each position once: the sum of the pruned matrix and `b`, pruned.
   */
  lemma PrunedAddAll(s: Store, ws: seq<Write>, b: Store, eps: real)
    requires IncrementsOf(ws, b)
    requires Targets(ws) == b.Keys
    ensures Prune(AddAll(s, ws, eps), eps) == Prune(Added(Prune(s, eps), b), eps)
  {
    assert Restrict(b, Targets(ws)) == b;
    if |ws| > 0 {
      AddAllLazy(s, ws, b, eps);
      LazyPrune(Added(Prune(s, eps), b), ws[|ws| - 1].0, eps);
    } else {
      assert b == map[];
      PruneTwice(s, eps);
      assert Added(Prune(s, eps), b) == Prune(s, eps);
    }
  }

  // ----- element-wise views -----

  /** Every stored element negated, nothing pruned: what unary minus leaves in its copy. */
  function Negated(s: Store): (r: Store)
    ensures r.Keys == s.Keys
  {
    map x | x in s :: -s[x]
  }

  lemma NegatedTwice(s: Store)
    ensures Negated(Negated(s)) == s
  {
  }

  /** Negation keeps magnitudes, so it commutes with pruning. */
  lemma PruneNegated(s: Store, eps: real)
    ensures Prune(Negated(s), eps) == Negated(Prune(s, eps))
  {
    assert forall x :: x in s ==> Abs(-s[x]) == Abs(s[x]);
  }

  /** A read of a sum is the sum of the reads. */
  lemma AddedRead(a: Store, b: Store, x: Cell)
    ensures Get(Added(a, b), x) == Get(a, x) + Get(b, x)
  {
  }

  lemma AddedCommutes(a: Store, b: Store)
    ensures Added(a, b) == Added(b, a)
  {
  }

  /** m - m: every position of the sum holds 0, which a positive threshold prunes away. */
  lemma AddedNegatedSelf(a: Store, eps: real)
    requires eps > 0.0
    ensures Prune(Added(a, Negated(a)), eps) == map[]
  {
    var sum := Added(a, Negated(a));
    assert forall x :: x in sum ==> sum[x] == 0;
  }
}
