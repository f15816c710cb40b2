/** Day 19 `PartManager`: the parts a policy accepts and the sum of their ratings. */
module PartManager {
  import opened Wrappers
  import opened Parts
  import opened Workflows

  /** One step of the comprehension: a failing evaluation of the first part stops it,
      then a failure among the later parts; otherwise the first part is kept in front
      of the later accepted parts exactly when it is accepted. */
  function Keep(accepted: Result<bool>, p: Part, rest: Result<seq<Part>>): Result<seq<Part>>
  {
    if accepted.Failure? then Failure(accepted.error)
    else if rest.Failure? then Failure(rest.error)
    else Success(if accepted.value then [p] + rest.value else rest.value)
  }

  /** `accepted_parts`: the parts the policy accepts, in their original order; a part
      whose evaluation fails stops the comprehension with that failure. */
  function AcceptedParts(policy: Policy, parts: seq<Part>, fuel: nat): (r: Result<seq<Part>>)
    ensures r.Success? <==> forall i :: 0 <= i < |parts| ==> Accepts(policy, parts[i], fuel).Success?
    ensures r.Success? ==> |r.value| <= |parts|
    ensures r.Success? ==> forall p :: p in r.value ==> p in parts && Accepts(policy, p, fuel) == Success(true)
    ensures r.Success? ==> forall i :: 0 <= i < |parts| && Accepts(policy, parts[i], fuel) == Success(true)
                                       ==> parts[i] in r.value
  {
    if |parts| == 0 then Success([])
    else
      var rest := AcceptedParts(policy, parts[1..], fuel);
      assert forall i :: 1 <= i < |parts| ==> parts[i] == parts[1..][i - 1];
      Keep(Accepts(policy, parts[0], fuel), parts[0], rest)
  }

  /** How the result over `a + b` follows from the results over `a` and over `b`. */
  predicate AppendsTo(ra: Result<seq<Part>>, rb: Result<seq<Part>>, rab: Result<seq<Part>>)
  {
    && (ra.Failure? ==> rab == Failure(ra.error))
    && (ra.Success? && rb.Failure? ==> rab == Failure(rb.error))
    && (ra.Success? && rb.Success? ==> rab == Success(ra.value + rb.value))
  }

  lemma KeepAppends(accepted: Result<bool>, p: Part, ra: Result<seq<Part>>, rb: Result<seq<Part>>, rab: Result<seq<Part>>)
    requires AppendsTo(ra, rb, rab)
    ensures AppendsTo(Keep(accepted, p, ra), rb, Keep(accepted, p, rab))
  {
    if accepted.Success? && ra.Success? && rb.Success? && accepted.value {
      assert [p] + (ra.value + rb.value) == ([p] + ra.value) + rb.value;
    }
  }

  lemma AcceptedPartsCons(policy: Policy, a: seq<Part>, b: seq<Part>, fuel: nat)
    requires |a| > 0
    ensures AcceptedParts(policy, a, fuel) == Keep(Accepts(policy, a[0], fuel), a[0], AcceptedParts(policy, a[1..], fuel))
    ensures AcceptedParts(policy, a + b, fuel) == Keep(Accepts(policy, a[0], fuel), a[0], AcceptedParts(policy, a[1..] + b, fuel))
  {
    assert (a + b)[0] == a[0] && (a + b)[1..] == a[1..] + b;
  }

  /** The comprehension works part by part: over a concatenation it fails with the
      first piece's failure, then with the second's, and otherwise concatenates the
      accepted parts of each piece. */
  lemma {:induction false} AcceptedPartsAppend(policy: Policy, a: seq<Part>, b: seq<Part>, fuel: nat)
    ensures var ra := AcceptedParts(policy, a, fuel);
            ra.Failure? ==> AcceptedParts(policy, a + b, fuel) == Failure(ra.error)
    ensures var ra := AcceptedParts(policy, a, fuel);
            var rb := AcceptedParts(policy, b, fuel);
            ra.Success? && rb.Failure? ==> AcceptedParts(policy, a + b, fuel) == Failure(rb.error)
    ensures var ra := AcceptedParts(policy, a, fuel);
            var rb := AcceptedParts(policy, b, fuel);
            ra.Success? && rb.Success? ==> AcceptedParts(policy, a + b, fuel) == Success(ra.value + rb.value)
    decreases |a|
  {
    if |a| == 0 {
      assert a + b == b;
      assert AcceptedParts(policy, a, fuel) == Success([]);
      var rb := AcceptedParts(policy, b, fuel);
      if rb.Success? {
        assert [] + rb.value == rb.value;
      }
    } else {
      AcceptedPartsAppend(policy, a[1..], b, fuel);
      AcceptedPartsCons(policy, a, b, fuel);
      KeepAppends(Accepts(policy, a[0], fuel), a[0], AcceptedParts(policy, a[1..], fuel),
                  AcceptedParts(policy, b, fuel), AcceptedParts(policy, a[1..] + b, fuel));
    }
  }

  /** A single part is kept exactly when the policy accepts it, and a failing
      evaluation is the comprehension's failure. */
  lemma AcceptedPartsSingle(policy: Policy, p: Part, fuel: nat)
    ensures var acc := Accepts(policy, p, fuel);
            AcceptedParts(policy, [p], fuel)
              == if acc.Failure? then Failure(acc.error) else Success(if acc.value then [p] else [])
  {
    assert [p][1..] == [];
    assert AcceptedParts(policy, [], fuel) == Success([]);
    assert [p] + [] == [p];
  }

  function TotalRatings(parts: seq<Part>): int
  {
    if |parts| == 0 then 0 else RatingTotal(parts[0]) + TotalRatings(parts[1..])
  }

  /** `sum_of_accepted_parts`: the ratings of every accepted part, added up. */
  function SumOfAcceptedParts(policy: Policy, parts: seq<Part>, fuel: nat): (r: Result<int>)
    ensures r.Success? <==> AcceptedParts(policy, parts, fuel).Success?
  {
    var accepted :- AcceptedParts(policy, parts, fuel);
    Success(TotalRatings(accepted))
  }

  /** A rejected part contributes nothing and an accepted one its own ratings. */
  lemma SumOfAcceptedPartsCons(policy: Policy, p: Part, rest: seq<Part>, fuel: nat)
    requires Accepts(policy, p, fuel).Success?
    ensures var s := SumOfAcceptedParts(policy, [p] + rest, fuel);
            var t := SumOfAcceptedParts(policy, rest, fuel);
            && (s.Success? <==> t.Success?)
            && (s.Success? && Accepts(policy, p, fuel).value ==> s.value == RatingTotal(p) + t.value)
            && (s.Success? && !Accepts(policy, p, fuel).value ==> s.value == t.value)
  {
    assert ([p] + rest)[1..] == rest;
    var a := AcceptedParts(policy, rest, fuel);
    if a.Success? && Accepts(policy, p, fuel).value {
      assert ([p] + a.value)[1..] == a.value;
    }
  }

  /** The sum over two lists of parts is the sum of the sums. */
  lemma {:induction false} SumOfAcceptedPartsAppend(policy: Policy, xs: seq<Part>, ys: seq<Part>, fuel: nat)
    requires SumOfAcceptedParts(policy, xs + ys, fuel).Success?
    ensures SumOfAcceptedParts(policy, xs, fuel).Success? && SumOfAcceptedParts(policy, ys, fuel).Success?
    ensures SumOfAcceptedParts(policy, xs + ys, fuel).value
            == SumOfAcceptedParts(policy, xs, fuel).value + SumOfAcceptedParts(policy, ys, fuel).value
    decreases |xs|
  {
    if |xs| == 0 {
      assert xs + ys == ys;
    } else {
      var p := xs[0];
      assert xs + ys == [p] + (xs[1..] + ys);
      assert xs == [p] + xs[1..];
      assert Accepts(policy, (xs + ys)[0], fuel).Success?;
      SumOfAcceptedPartsCons(policy, p, xs[1..] + ys, fuel);
      SumOfAcceptedPartsAppend(policy, xs[1..], ys, fuel);
      SumOfAcceptedPartsCons(policy, p, xs[1..], fuel);
    }
  }
}
