/**
  The load-balancing solution of the annealing program (Solution and its
  TestSolution variant): an assignment of works, numbered from 0, to
  processors, numbered from 0, scored by how far apart the busiest and the
  idlest processor are.  The random numbers mutate draws are parameters.
 */
module Balance {
  import opened Machine

  /** Which score the object has: Solution's own or TestSolution's override. */
  datatype Kind = Plain | Test

  /** The work lengths of works 0 .. k-1 added up. */
  function Total(works: seq<nat>, k: nat): nat
    requires k <= |works|
  {
    if k == 0 then 0 else Total(works, k - 1) + works[k - 1]
  }

  predicate AssignsPrefix(tt: map<nat, nat>, k: nat) {
    forall w: nat :: w < k ==> w in tt
  }

  /** The load of processor p from works 0 .. k-1: the lengths of those assigned to p, added up. */
  function LoadTo(tt: map<nat, nat>, works: seq<nat>, k: nat, p: nat): nat
    requires k <= |works| && AssignsPrefix(tt, k)
  {
    if k == 0 then 0 else LoadTo(tt, works, k - 1, p) + (if tt[k - 1] == p then works[k - 1] else 0)
  }

  /** The per-processor sums of score(), held in unsigned ints, so taken modulo 2^32. */
  function Loads(tt: map<nat, nat>, works: seq<nat>, procNum: nat): (lens: seq<nat>)
    requires AssignsPrefix(tt, |works|)
    ensures |lens| == procNum
  {
    seq(procNum, p requires 0 <= p < procNum => LoadTo(tt, works, |works|, p) % U32)
  }

  /** *std::max_element. */
  function Max(s: seq<nat>): (r: nat)
    requires |s| > 0
    ensures r in s && forall k :: 0 <= k < |s| ==> s[k] <= r
  {
    if |s| == 1 then s[0]
    else
      var m := Max(s[..|s| - 1]);
      if s[|s| - 1] > m then s[|s| - 1] else m
  }

  /** *std::min_element. */
  function Min(s: seq<nat>): (r: nat)
    requires |s| > 0
    ensures r in s && forall k :: 0 <= k < |s| ==> r <= s[k]
  {
    if |s| == 1 then s[0]
    else
      var m := Min(s[..|s| - 1]);
      if s[|s| - 1] < m then s[|s| - 1] else m
  }

  /** Solution::score: the largest load minus the smallest. */
  function Spread(tt: map<nat, nat>, works: seq<nat>, procNum: nat): nat
    requires AssignsPrefix(tt, |works|) && procNum >= 1
  {
    Max(Loads(tt, works, procNum)) - Min(Loads(tt, works, procNum))
  }

  /** The processor mutate settles on: the first draw, taken modulo procNum, that differs from the current one. */
  function FirstOther(draws: seq<nat>, procNum: nat, current: nat): (p: nat)
    requires procNum >= 1 && exists i :: 0 <= i < |draws| && draws[i] % procNum != current
    ensures p < procNum && p != current
  {
    if draws[0] % procNum != current then draws[0] % procNum
    else
      assert exists i :: 0 <= i < |draws[1..]| && draws[1..][i] % procNum != current by {
        var i :| 0 <= i < |draws| && draws[i] % procNum != current;
        assert draws[1..][i - 1] == draws[i];
      }
      FirstOther(draws[1..], procNum, current)
  }

  class Solution {
    const procNum: nat
    const works: seq<nat>
    const kind: Kind
    /** timetable_: work number to processor number. */
    var timetable: map<nat, nat>

    /** Unsigned sizes and lengths, and exactly the works 0 .. |works|-1 assigned. */
    ghost predicate Valid()
      reads this
    {
      procNum < U32 && (forall k :: 0 <= k < |works| ==> works[k] < U32) &&
      forall w: nat :: w in timetable <==> w < |works|
    }

    /** Every work sits on one of the processors. */
    predicate OnProcessors()
      reads this
    {
      forall w :: w in timetable ==> timetable[w] < procNum
    }

    /** The Solution constructor: every work on processor 0. */
    constructor Initial(procs: nat, lens: seq<nat>)
      requires procs < U32 && forall k :: 0 <= k < |lens| ==> lens[k] < U32
      ensures Valid() && procNum == procs && works == lens && kind == Plain
      ensures forall w :: w in timetable ==> timetable[w] == 0
    {
      procNum, works, kind := procs, lens, Plain;
      timetable := map[];
      new;
      var i := 0;
      while i < |works|
        invariant 0 <= i <= |works|
        invariant forall w: nat :: w in timetable <==> w < i
        invariant forall w :: w in timetable ==> timetable[w] == 0
      {
        timetable := timetable[i := 0];
        i := i + 1;
      }
    }

    /** The TestSolution constructor: work i on processor i mod procNum, round robin. */
    constructor RoundRobin(procs: nat, lens: seq<nat>)
      requires procs < U32 && forall k :: 0 <= k < |lens| ==> lens[k] < U32
      requires procs >= 1 || |lens| == 0
      ensures Valid() && procNum == procs && works == lens && kind == Test
      ensures forall w :: w in timetable ==> procNum >= 1 && timetable[w] == w % procNum
    {
      procNum, works, kind := procs, lens, Test;
      timetable := map[];
      new;
      var next := 0;
      var i := 0;
      while i < |works|
        invariant 0 <= i <= |works|
        invariant forall w: nat :: w in timetable <==> w < i
        invariant forall w :: w in timetable ==> procNum >= 1 && timetable[w] == w % procNum
        invariant i < |works| ==> procNum >= 1 && next == i % procNum
      {
        timetable := timetable[i := next];
        ModNext(i, procNum);
        next := (next + 1) % procNum;
        i := i + 1;
      }
    }

    /**
      Solution::score.  The source walks the map in its own order; the
      loads do not depend on the order, and the works are 0 .. |works|-1,
      so they are walked in index order here.
     */
    method BaseScore() returns (score: nat)
      requires Valid() && OnProcessors() && procNum >= 1
      ensures score == Spread(timetable, works, procNum)
    {
      var lens: seq<nat> := [];
      var p := 0;
      while p < procNum
        invariant 0 <= p <= procNum && lens == seq(p, q => 0)
      {
        lens := lens + [0];
        p := p + 1;
      }
      var w := 0;
      while w < |works|
        invariant 0 <= w <= |works| && |lens| == procNum
        invariant forall q :: 0 <= q < procNum ==> lens[q] == LoadTo(timetable, works, w, q) % U32
      {
        var proc := timetable[w];
        lens := lens[proc := (lens[proc] + works[w]) % U32];
        w := w + 1;
      }
      assert lens == Loads(timetable, works, procNum);
      score := Max(lens) - Min(lens);
    }

    /** score(): Solution's, or for a TestSolution its negation. */
    method Score() returns (score: int)
      requires Valid() && OnProcessors() && procNum >= 1
      ensures score == if kind == Test then -(Spread(timetable, works, procNum) as int) else Spread(timetable, works, procNum)
    {
      var base := BaseScore();
      if kind == Test {
        score := -(base as int);
      } else {
        score := base;
      }
    }

    /** Some processor draw, modulo procNum, differs from the processor of the drawn work. */
    ghost predicate CanMove(workDraw: nat, procDraws: seq<nat>)
      reads this
      requires Valid() && |works| >= 1 && procNum >= 1
    {
      exists i :: 0 <= i < |procDraws| && procDraws[i] % procNum != timetable[workDraw % |works|]
    }

    /**
      mutate: the work is the first draw modulo the number of works; the
      processor draws are repeated until one, modulo procNum, differs from
      the work's processor.  The draws must contain such a value, which
      needs at least two processors.
     */
    method Mutate(workDraw: nat, procDraws: seq<nat>)
      requires Valid() && OnProcessors() && |works| >= 1 && procNum >= 1
      requires CanMove(workDraw, procDraws)
      modifies this
      ensures Valid() && OnProcessors()
      ensures timetable == old(timetable)[workDraw % |works| :=
        FirstOther(procDraws, procNum, old(timetable)[workDraw % |works|])]
    {
      var w := workDraw % |works|;
      var k := 0;
      var proc := procDraws[0] % procNum;
      while proc == timetable[w]
        invariant 0 <= k < |procDraws| && proc == procDraws[k] % procNum
        invariant forall h :: 0 <= h < k ==> procDraws[h] % procNum == timetable[w]
        invariant exists i :: k <= i < |procDraws| && procDraws[i] % procNum != timetable[w]
        decreases |procDraws| - k
      {
        k := k + 1;
        proc := procDraws[k] % procNum;
      }
      FirstOtherAt(procDraws, procNum, timetable[w], k);
      timetable := timetable[w := proc];
    }
  }

  /** Counting on modulo p: after i mod p comes (i + 1) mod p. */
  lemma ModNext(i: nat, p: nat)
    requires p >= 1
    ensures (i % p + 1) % p == (i + 1) % p
  {
    var q, r := i / p, i % p;
    assert i == q * p + r;
    if r + 1 == p {
      assert (q + 1) * p == q * p + p;
      ModUnique(i + 1, q + 1, 0, p);
      ModUnique(p, 1, 0, p);
    } else {
      ModUnique(i + 1, q, r + 1, p);
      ModUnique(r + 1, 0, r + 1, p);
    }
  }

  /** Division with remainder is unique. */
  lemma ModUnique(n: nat, q: nat, r: nat, p: nat)
    requires p >= 1 && r < p && n == q * p + r
    ensures n % p == r
  {
    DivUnique(n, p, q, r);
  }

  /** The first differing draw is the one at the first index where a draw differs. */
  lemma {:induction false} FirstOtherAt(draws: seq<nat>, procNum: nat, current: nat, k: nat)
    requires procNum >= 1 && k < |draws| && draws[k] % procNum != current
    requires forall h :: 0 <= h < k ==> draws[h] % procNum == current
    ensures FirstOther(draws, procNum, current) == draws[k] % procNum
  {
    if k > 0 {
      assert draws[1..][k - 1] == draws[k];
      assert forall h :: 0 <= h < k - 1 ==> draws[1..][h] == draws[h + 1];
      FirstOtherAt(draws[1..], procNum, current, k - 1);
    }
  }

  // ----- properties -----

  /**
    With one processor no draw differs from the processor of the drawn
    work, so no draws meet mutate's precondition: its retry loop cannot end.
   */
  lemma OneProcessorNeverMoves(sol: Solution, workDraw: nat, procDraws: seq<nat>)
    requires sol.Valid() && sol.OnProcessors() && |sol.works| >= 1 && sol.procNum == 1
    ensures !sol.CanMove(workDraw, procDraws)
  {
    var w := workDraw % |sol.works|;
    assert w in sol.timetable;
    assert sol.timetable[w] == 0;
  }

  /** The sum over processors q < procs of the loads from works 0 .. k-1. */
  function LoadSum(tt: map<nat, nat>, works: seq<nat>, k: nat, procs: nat): nat
    requires k <= |works| && AssignsPrefix(tt, k)
  {
    if procs == 0 then 0 else LoadSum(tt, works, k, procs - 1) + LoadTo(tt, works, k, procs - 1)
  }

  lemma {:induction false} LoadSumStep(tt: map<nat, nat>, works: seq<nat>, k: nat, procs: nat)
    requires k < |works| && AssignsPrefix(tt, k + 1)
    ensures LoadSum(tt, works, k + 1, procs) ==
      LoadSum(tt, works, k, procs) + (if tt[k] < procs then works[k] else 0)
  {
    if procs > 0 {
      LoadSumStep(tt, works, k, procs - 1);
    }
  }

  lemma {:induction false} LoadSumNone(tt: map<nat, nat>, works: seq<nat>, procs: nat)
    ensures LoadSum(tt, works, 0, procs) == 0
  {
    if procs > 0 {
      LoadSumNone(tt, works, procs - 1);
    }
  }

  /**
    Moving work w to processor p (what mutate does) takes its length off
    the load of its old processor and adds it to p's; every other load is
    unchanged.
   */
  lemma {:induction false} MoveLoads(tt: map<nat, nat>, works: seq<nat>, k: nat, w: nat, p: nat, q: nat)
    requires k <= |works| && AssignsPrefix(tt, k) && w in tt
    ensures AssignsPrefix(tt[w := p], k)
    ensures LoadTo(tt[w := p], works, k, q) as int ==
      LoadTo(tt, works, k, q) as int +
      (if w < k && p == q then works[w] as int else 0) - (if w < k && tt[w] == q then works[w] as int else 0)
  {
    if k > 0 {
      MoveLoads(tt, works, k - 1, w, p, q);
    }
  }

  /** Each work is on exactly one processor, so the loads add up to the total work length. */
  lemma {:induction false} LoadsTotal(tt: map<nat, nat>, works: seq<nat>, k: nat, procNum: nat)
    requires k <= |works| && AssignsPrefix(tt, k)
    requires forall w: nat :: w < k ==> tt[w] < procNum
    ensures LoadSum(tt, works, k, procNum) == Total(works, k)
  {
    if k > 0 {
      var j := k - 1;
      assert AssignsPrefix(tt, j);
      LoadsTotal(tt, works, j, procNum);
      LoadSumStep(tt, works, j, procNum);
      assert tt[j] < procNum;
      assert LoadSum(tt, works, j + 1, procNum) == Total(works, j) + works[j];
    } else {
      LoadSumNone(tt, works, procNum);
    }
  }

  /** No load exceeds the total, so while the total fits an unsigned int the loads are exact. */
  lemma {:induction false} LoadBelowTotal(tt: map<nat, nat>, works: seq<nat>, k: nat, p: nat)
    requires k <= |works| && AssignsPrefix(tt, k)
    ensures LoadTo(tt, works, k, p) <= Total(works, k)
  {
    if k > 0 {
      LoadBelowTotal(tt, works, k - 1, p);
    }
  }

  lemma LoadsExact(tt: map<nat, nat>, works: seq<nat>, procNum: nat)
    requires AssignsPrefix(tt, |works|) && Total(works, |works|) < U32
    ensures forall p :: 0 <= p < procNum ==> Loads(tt, works, procNum)[p] == LoadTo(tt, works, |works|, p)
  {
    forall p | 0 <= p < procNum
      ensures Loads(tt, works, procNum)[p] == LoadTo(tt, works, |works|, p)
    {
      LoadBelowTotal(tt, works, |works|, p);
    }
  }

  /** The score is 0 exactly when every processor carries the same load. */
  lemma SpreadZero(tt: map<nat, nat>, works: seq<nat>, procNum: nat)
    requires AssignsPrefix(tt, |works|) && procNum >= 1
    ensures Spread(tt, works, procNum) == 0 <==>
      forall p, q :: 0 <= p < procNum && 0 <= q < procNum ==> Loads(tt, works, procNum)[p] == Loads(tt, works, procNum)[q]
  {
    var lens := Loads(tt, works, procNum);
    if Spread(tt, works, procNum) == 0 {
      forall p, q | 0 <= p < procNum && 0 <= q < procNum
        ensures lens[p] == lens[q]
      {
        assert Min(lens) <= lens[p] <= Max(lens);
        assert Min(lens) <= lens[q] <= Max(lens);
      }
    }
  }

  /** Everything on processor 0 (the Solution constructor): with two or more processors the score is the total length, modulo 2^32. */
  lemma {:induction false} InitialSpread(tt: map<nat, nat>, works: seq<nat>, procNum: nat)
    requires AssignsPrefix(tt, |works|) && procNum >= 2
    requires forall w: nat :: w < |works| ==> tt[w] == 0
    ensures Spread(tt, works, procNum) == Total(works, |works|) % U32
  {
    var lens := Loads(tt, works, procNum);
    AllOnZero(tt, works, |works|);
    assert lens[0] == Total(works, |works|) % U32;
    assert lens[1] == 0;
    assert Min(lens) == 0;
    assert forall k :: 0 <= k < |lens| ==> lens[k] <= lens[0];
  }

  lemma {:induction false} AllOnZero(tt: map<nat, nat>, works: seq<nat>, k: nat)
    requires k <= |works| && AssignsPrefix(tt, k)
    requires forall w: nat :: w < k ==> tt[w] == 0
    ensures LoadTo(tt, works, k, 0) == Total(works, k)
    ensures forall p :: p != 0 ==> LoadTo(tt, works, k, p) == 0
  {
    if k > 0 {
      AllOnZero(tt, works, k - 1);
    }
  }
}
