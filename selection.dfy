/**
  BestValue of the genetic search: the smallest OptValue among the valid
  members of a population, and the member that has it.
 */
module Selection {
  import opened Machine
  import opened Life

  predicate SomeValid(population: seq<Condition>) {
    exists k :: 0 <= k < |population| && IsValid(population[k])
  }

  /**
    BestValue.  `best` is the caller's variable passed by reference: its
    value on entry is `best0`, its value on exit is `best`.  The first loop
    only asks whether some member is valid, and then seeds the minimum
    with population[0], valid or not; the second loop lowers it to every
    smaller OptValue of a valid member.
   */
  method BestValue(population: seq<Condition>, best0: Condition) returns (value: nat, best: Condition)
    ensures |population| == 0 ==> value == 0 && best == best0
    ensures |population| > 0 && !SomeValid(population) ==>
      value == (population[0].size * population[0].size) % U32 && best == best0
    ensures SomeValid(population) ==>
      value == OptValue(best) && value <= OptValue(population[0]) &&
      (best == population[0] || (best in population && IsValid(best)))
    ensures forall k :: 0 <= k < |population| && IsValid(population[k]) ==> value <= OptValue(population[k])
    ensures SomeValid(population) ==>
      value in Candidates(population) && forall v :: v in Candidates(population) ==> value <= v
  {
    best := best0;
    if |population| == 0 {
      return 0, best;
    }
    value := (population[0].size * population[0].size) % U32;
    var found := false;
    var i := 0;
    while i < |population|
      invariant 0 <= i <= |population|
      invariant !found ==> forall k :: 0 <= k < i ==> !IsValid(population[k])
      invariant found ==> SomeValid(population) && value == OptValue(population[0]) && best == population[0]
      invariant !found ==> value == (population[0].size * population[0].size) % U32 && best == best0
    {
      if IsValid(population[i]) {
        found := true;
        value := OptValue(population[0]);
        best := population[0];
        break;
      }
      i := i + 1;
    }
    if !found {
      assert !SomeValid(population);
    }
    i := 0;
    while i < |population|
      invariant 0 <= i <= |population|
      invariant found <==> SomeValid(population)
      invariant !found ==> value == (population[0].size * population[0].size) % U32 && best == best0
      invariant found ==> value == OptValue(best) && value <= OptValue(population[0])
      invariant found ==> best == population[0] || (best in population && IsValid(best))
      invariant forall k :: 0 <= k < i && IsValid(population[k]) ==> value <= OptValue(population[k])
    {
      var sp := population[i];
      if IsValid(sp) {
        var v := OptValue(sp);
        if v < value {
          value := v;
          best := sp;
        }
      }
      i := i + 1;
    }
    if found {
      BestValueIsLeast(population, value, best);
    }
  }

  /**
    When some member is valid the result is attained: it is the least of
    OptValue(population[0]) and the OptValues of the valid members.
   */
  lemma BestValueIsLeast(population: seq<Condition>, value: nat, best: Condition)
    requires SomeValid(population)
    requires value == OptValue(best) && value <= OptValue(population[0])
    requires best == population[0] || (best in population && IsValid(best))
    requires forall k :: 0 <= k < |population| && IsValid(population[k]) ==> value <= OptValue(population[k])
    ensures forall v :: v in Candidates(population) ==> value <= v
    ensures value in Candidates(population)
  {
    if best != population[0] {
      var k :| 0 <= k < |population| && population[k] == best;
      assert OptValue(population[k]) in Candidates(population);
    }
  }

  /** The values BestValue chooses among: the seed's and those of the valid members. */
  function Candidates(population: seq<Condition>): set<nat>
    requires |population| > 0
  {
    {OptValue(population[0])} + set k | 0 <= k < |population| && IsValid(population[k]) :: OptValue(population[k])
  }
}
