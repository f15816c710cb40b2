/** Day 19 range count: how many parts with every rating in 1..4000 the policy
    accepts. `CountAsWritten` follows `number_of_distinct_accepted_combinations` and
    `bound_volume` as the script writes them; `CountAccepted` is the count they are
    meant to compute, proved equal to the number of accepted points. */
module WorkflowRanges {
  import opened Wrappers
  import opened Parts
  import opened Workflows
  import opened Boxes

  /** `Policy.part_types`. */
  const Categories: seq<string> := ["x", "m", "a", "s"]

  // ----- the count as written -----

  /** `XMAS_Bound`: key `(t, 0)` holds the upper bound of category `t` and key
      `(t, 1)` the lower one. */
  type Bounds = map<(string, int), int>

  function Upper(bounds: Bounds, t: string): int
  {
    if (t, 0) in bounds then bounds[(t, 0)] else 4000
  }

  function Lower(bounds: Bounds, t: string): int
  {
    if (t, 1) in bounds then bounds[(t, 1)] else 1
  }

  /** `1 + upper - lower`, which is negative once the bounds cross. */
  function Length(bounds: Bounds, t: string): int
  {
    1 + Upper(bounds, t) - Lower(bounds, t)
  }

  /** `bound_volume`: the product of the four lengths, none clamped at zero. */
  function BoundVolume(bounds: Bounds): int
  {
    Length(bounds, "x") * Length(bounds, "m") * Length(bounds, "a") * Length(bounds, "s")
  }

  /** The box the bounds describe. */
  function BoxOfBounds(bounds: Bounds): (b: Box)
    ensures |b| == 4
  {
    [(Lower(bounds, "x"), Upper(bounds, "x")), (Lower(bounds, "m"), Upper(bounds, "m")),
     (Lower(bounds, "a"), Upper(bounds, "a")), (Lower(bounds, "s"), Upper(bounds, "s"))]
  }

  /** While no two bounds cross, `bound_volume` is the number of points of the box;
      with no bounds at all it is 4000^4. */
  lemma BoundVolumeCountsPoints(bounds: Bounds)
    requires forall t :: t in Categories ==> Length(bounds, t) >= 0
    ensures BoundVolume(bounds) == Volume(BoxOfBounds(bounds))
    ensures bounds == map[] ==> BoundVolume(bounds) == 256_000_000_000_000
  {
    var b := BoxOfBounds(bounds);
    assert Categories[0] == "x" && Categories[1] == "m" && Categories[2] == "a" && Categories[3] == "s";
    assert Width(b[0]) == Length(bounds, "x") && Width(b[1]) == Length(bounds, "m");
    assert Width(b[2]) == Length(bounds, "a") && Width(b[3]) == Length(bounds, "s");
    VolumeOfFour(b);
  }

  /** The volume of a four-dimensional box is the product of its four widths. */
  lemma VolumeOfFour(b: Box)
    requires |b| == 4
    ensures Volume(b) == Width(b[0]) * Width(b[1]) * Width(b[2]) * Width(b[3])
  {
    assert b[1..][1..][1..][1..] == [];
    assert Volume(b[1..][1..][1..]) == Width(b[3]);
    assert Volume(b[1..][1..]) == Width(b[2]) * Width(b[3]);
    assert Volume(b[1..]) == Width(b[1]) * (Width(b[2]) * Width(b[3]));
  }

  /** The bounds handed to a rule's target: `bounds_copy[(t, code)] = threshold - 1 + 2 * code`,
      an upper bound below the threshold for `<`, a lower bound above it otherwise. It
      overwrites the bound instead of intersecting with it. */
  function TakenAsWritten(bounds: Bounds, rule: Rule): (r: Bounds)
    ensures rule.op == Less ==> Upper(r, rule.category) == rule.threshold - 1 && Lower(r, rule.category) == Lower(bounds, rule.category)
    ensures rule.op != Less ==> Lower(r, rule.category) == rule.threshold + 1 && Upper(r, rule.category) == Upper(bounds, rule.category)
    ensures forall t :: t != rule.category ==> Upper(r, t) == Upper(bounds, t) && Lower(r, t) == Lower(bounds, t)
  {
    var code := OperationEncoding(rule.op);
    bounds[(rule.category, code) := rule.threshold - 1 + 2 * code]
  }

  /** The bounds kept for the following rules: `bounds[(t, 1 - code)] = threshold`,
      a lower bound at the threshold for `<`, an upper bound at it otherwise. */
  function RestAsWritten(bounds: Bounds, rule: Rule): (r: Bounds)
    ensures rule.op == Less ==> Lower(r, rule.category) == rule.threshold && Upper(r, rule.category) == Upper(bounds, rule.category)
    ensures rule.op != Less ==> Upper(r, rule.category) == rule.threshold && Lower(r, rule.category) == Lower(bounds, rule.category)
    ensures forall t :: t != rule.category ==> Upper(r, t) == Upper(bounds, t) && Lower(r, t) == Lower(bounds, t)
  {
    var code := OperationEncoding(rule.op);
    bounds[(rule.category, 1 - code) := rule.threshold]
  }

  /** The entries one rule set pushes, in push order: each rule's target with its
      taken bounds, then the fallback with the bounds every rule has narrowed. */
  function Children(rules: seq<Rule>, fallback: string, bounds: Bounds): (r: seq<(string, Bounds)>)
    ensures |r| == |rules| + 1
  {
    if |rules| == 0 then [(fallback, bounds)]
    else [(rules[0].target, TakenAsWritten(bounds, rules[0]))] + Children(rules[1..], fallback, RestAsWritten(bounds, rules[0]))
  }

  /** The volume a node's subtree sends to `A`, which the script adds up, and the
      volume it sends to `R`, which the script skips. */
  datatype Tally = Tally(accepted: int, rejected: int)

  /** One node of the script's stack: `R` and `A` end the path; any other name must
      be a rule set (a KeyError otherwise) whose rules are not raw phrases (reading
      `criteria` off a string is an AttributeError; `rules[-1]` of no rules is an
      IndexError). The stack is popped from the end, so the children are explored
      last-pushed first. The script keeps popping for ever on a cyclic policy; each
      level here spends one unit of `fuel`. */
  function TallyAsWritten(policy: Policy, name: string, bounds: Bounds, fuel: nat): (r: Result<Tally>)
    ensures name == "R" ==> r == Success(Tally(0, BoundVolume(bounds)))
    ensures name == "A" ==> r == Success(Tally(BoundVolume(bounds), 0))
    ensures name != "R" && name != "A" && name !in policy ==> r == Failure(MissingKey)
    decreases fuel, 0
  {
    if name == "R" then Success(Tally(0, BoundVolume(bounds)))
    else if name == "A" then Success(Tally(BoundVolume(bounds), 0))
    else if name !in policy then Failure(MissingKey)
    else if fuel == 0 then Failure(OutOfFuel)
    else
      var rs := policy[name];
      match rs.body
      case RawPhrases(phrases) => if |phrases| == 0 then Failure(IndexOutOfRange) else Failure(NoAttribute)
      case Conditions(rules) =>
        if |rules| == 0 then Failure(IndexOutOfRange)
        else TallyStack(policy, Children(rules, rs.fallback, bounds), fuel - 1)
  }

  /** Pops the pushed entries from the last one down and adds up their tallies. */
  function TallyStack(policy: Policy, stack: seq<(string, Bounds)>, fuel: nat): (r: Result<Tally>)
    decreases fuel, 1, |stack|
  {
    if |stack| == 0 then Success(Tally(0, 0))
    else
      var top := stack[|stack| - 1];
      var a :- TallyAsWritten(policy, top.0, top.1, fuel);
      var b :- TallyStack(policy, stack[..|stack| - 1], fuel);
      Success(Tally(a.accepted + b.accepted, a.rejected + b.rejected))
  }

  /** `number_of_distinct_accepted_combinations`, as written: from `in` with no bounds. */
  function CountAsWritten(policy: Policy, fuel: nat): Result<int>
  {
    var t :- TallyAsWritten(policy, "in", map[], fuel);
    Success(t.accepted)
  }

  // ----- what the count as written conserves -----

  /** Every rule of every rule set tests one of the four categories. */
  predicate XmasRules(policy: Policy)
  {
    forall name :: name in policy && policy[name].body.Conditions? ==>
      forall i :: 0 <= i < |policy[name].body.rules| ==> policy[name].body.rules[i].category in Categories
  }

  function StackVolume(stack: seq<(string, Bounds)>): int
  {
    if |stack| == 0 then 0 else BoundVolume(stack[|stack| - 1].1) + StackVolume(stack[..|stack| - 1])
  }

  lemma {:induction false} StackVolumeCons(head: (string, Bounds), stack: seq<(string, Bounds)>)
    ensures StackVolume([head] + stack) == BoundVolume(head.1) + StackVolume(stack)
    decreases |stack|
  {
    if |stack| == 0 {
      assert ([head] + stack)[..0] == [];
    } else {
      assert ([head] + stack)[..|stack|] == [head] + stack[..|stack| - 1];
      StackVolumeCons(head, stack[..|stack| - 1]);
    }
  }

  lemma SumAtX(p: int, q: int, m: int, a: int, s: int)
    ensures p * m * a * s + q * m * a * s == (p + q) * m * a * s
  {
    assert (p + q) * m == p * m + q * m;
    assert (p * m + q * m) * a == p * m * a + q * m * a;
    assert (p * m * a + q * m * a) * s == p * m * a * s + q * m * a * s;
  }

  lemma SumAtM(x: int, p: int, q: int, a: int, s: int)
    ensures x * p * a * s + x * q * a * s == x * (p + q) * a * s
  {
    assert x * (p + q) == x * p + x * q;
    assert (x * p + x * q) * a == x * p * a + x * q * a;
    assert (x * p * a + x * q * a) * s == x * p * a * s + x * q * a * s;
  }

  lemma SumAtA(x: int, m: int, p: int, q: int, s: int)
    ensures x * m * p * s + x * m * q * s == x * m * (p + q) * s
  {
    assert x * m * (p + q) == x * m * p + x * m * q;
    assert (x * m * p + x * m * q) * s == x * m * p * s + x * m * q * s;
  }

  lemma SumAtS(x: int, m: int, a: int, p: int, q: int)
    ensures x * m * a * p + x * m * a * q == x * m * a * (p + q)
  {
    assert x * m * a * (p + q) == x * m * a * p + x * m * a * q;
  }

  /** One length changes between the taken and the kept bounds, and the two lengths
      add up to the old one, so the two volumes add up to the old volume. */
  lemma RuleConservesVolume(bounds: Bounds, rule: Rule)
    requires rule.category in Categories
    ensures BoundVolume(TakenAsWritten(bounds, rule)) + BoundVolume(RestAsWritten(bounds, rule)) == BoundVolume(bounds)
  {
    var t1 := TakenAsWritten(bounds, rule);
    var t2 := RestAsWritten(bounds, rule);
    var c := rule.category;
    assert Length(t1, c) + Length(t2, c) == Length(bounds, c);
    VolumeSplitsAt(bounds, t1, t2, c);
  }

  /** Two bounds that differ from `bounds` in category `c` only, with lengths there
      adding up to its length, have volumes adding up to its volume. */
  lemma VolumeSplitsAt(bounds: Bounds, b1: Bounds, b2: Bounds, c: string)
    requires c in Categories
    requires Length(b1, c) + Length(b2, c) == Length(bounds, c)
    requires forall t :: t != c ==> Length(b1, t) == Length(bounds, t) && Length(b2, t) == Length(bounds, t)
    ensures BoundVolume(b1) + BoundVolume(b2) == BoundVolume(bounds)
  {
    var x, m, a, s := Length(bounds, "x"), Length(bounds, "m"), Length(bounds, "a"), Length(bounds, "s");
    var p, q := Length(b1, c), Length(b2, c);
    if c == "x" {
      assert "m" != c && "a" != c && "s" != c;
      SumAtX(p, q, m, a, s);
    } else if c == "m" {
      assert "x" != c && "a" != c && "s" != c;
      SumAtM(x, p, q, a, s);
    } else if c == "a" {
      assert "x" != c && "m" != c && "s" != c;
      SumAtA(x, m, p, q, s);
    } else {
      assert c == "s";
      assert "x" != c && "m" != c && "a" != c;
      SumAtS(x, m, a, p, q);
    }
  }

  lemma {:induction false} ChildrenConserveVolume(rules: seq<Rule>, fallback: string, bounds: Bounds)
    requires forall i :: 0 <= i < |rules| ==> rules[i].category in Categories
    ensures StackVolume(Children(rules, fallback, bounds)) == BoundVolume(bounds)
    decreases |rules|
  {
    if |rules| == 0 {
      assert [(fallback, bounds)][..0] == [];
    } else {
      var rest := RestAsWritten(bounds, rules[0]);
      StackVolumeCons((rules[0].target, TakenAsWritten(bounds, rules[0])), Children(rules[1..], fallback, rest));
      ChildrenConserveVolume(rules[1..], fallback, rest);
      RuleConservesVolume(bounds, rules[0]);
    }
  }

  /** The count as written loses nothing: the volume it sends to `A` and the volume
      it sends to `R` add up to the volume it started from. Its error is which of the
      two a region is credited to, and with what sign. */
  lemma {:induction false} TallyConservesVolume(policy: Policy, name: string, bounds: Bounds, fuel: nat)
    requires XmasRules(policy)
    requires TallyAsWritten(policy, name, bounds, fuel).Success?
    ensures var t := TallyAsWritten(policy, name, bounds, fuel).value;
            t.accepted + t.rejected == BoundVolume(bounds)
    decreases fuel, 0
  {
    if name != "R" && name != "A" {
      var rs := policy[name];
      var rules := rs.body.rules;
      ChildrenConserveVolume(rules, rs.fallback, bounds);
      StackConservesVolume(policy, Children(rules, rs.fallback, bounds), fuel - 1);
    }
  }

  lemma {:induction false} StackConservesVolume(policy: Policy, stack: seq<(string, Bounds)>, fuel: nat)
    requires XmasRules(policy)
    requires TallyStack(policy, stack, fuel).Success?
    ensures var t := TallyStack(policy, stack, fuel).value;
            t.accepted + t.rejected == StackVolume(stack)
    decreases fuel, 1, |stack|
  {
    if |stack| > 0 {
      var top := stack[|stack| - 1];
      TallyConservesVolume(policy, top.0, top.1, fuel);
      StackConservesVolume(policy, stack[..|stack| - 1], fuel);
    }
  }

  /** What the count as written calls accepted and what it calls rejected add up to
      the 4000^4 rating combinations it starts from. */
  lemma CountAsWrittenSplitsBox(policy: Policy, fuel: nat)
    requires XmasRules(policy) && CountAsWritten(policy, fuel).Success?
    ensures CountAsWritten(policy, fuel).value + TallyAsWritten(policy, "in", map[], fuel).value.rejected
            == 256_000_000_000_000
  {
    TallyConservesVolume(policy, "in", map[], fuel);
    BoundVolumeCountsPoints(map[]);
  }

  // ----- the count as intended -----

  /** The part whose ratings are the point's coordinates, in the order x, m, a, s. */
  function PartOf(p: seq<int>): (part: Part)
    requires |p| == 4
    ensures forall d :: 0 <= d < 4 ==> Lookup(part, Categories[d]) == Success(p[d])
  {
    var part := [("x", p[0]), ("m", p[1]), ("a", p[2]), ("s", p[3])];
    assert DistinctKeys(part);
    assert forall d :: 0 <= d < 4 ==> part[d] == (Categories[d], p[d]);
    part
  }

  /** Position of a category in x, m, a, s. */
  function CategoryIndex(t: string): (k: Option<nat>)
    ensures k.Some? <==> t in Categories
    ensures k.Some? ==> k.value < 4 && Categories[k.value] == t
  {
    if t == "x" then Some(0) else if t == "m" then Some(1) else if t == "a" then Some(2)
    else if t == "s" then Some(3) else None
  }

  /** Every rating between 1 and 4000. */
  const FullBox: Box := [(1, 4000), (1, 4000), (1, 4000), (1, 4000)]

  /** The number of points of `box` whose part reaches `A` from `name`: a label that
      names no rule set ends the path (it is accepted only if it is `A`); a rule cuts
      the box into the points it sends to its target and the points it passes on,
      intersecting with the bounds so far; `=` passes on two boxes, below and above
      the threshold. Fuel is spent as `FinalLabel` spends it. */
  function CountAccepted(policy: Policy, name: string, box: Box, fuel: nat): (r: Result<int>)
    requires |box| == 4
    ensures name !in policy ==> r == Success(if name == "A" then Volume(box) else 0)
    decreases fuel, 0
  {
    if name !in policy then Success(if name == "A" then Volume(box) else 0)
    else if fuel == 0 then Failure(OutOfFuel)
    else
      var rs := policy[name];
      match rs.body
      case RawPhrases(phrases) =>
        if |phrases| == 0 then CountAccepted(policy, rs.fallback, box, fuel - 1) else Failure(WrongType)
      case Conditions(rules) => CountRules(policy, rules, rs.fallback, box, fuel - 1)
  }

  function CountRules(policy: Policy, rules: seq<Rule>, fallback: string, box: Box, fuel: nat): (r: Result<int>)
    requires |box| == 4
    decreases fuel, 1, |rules|
  {
    if |rules| == 0 then CountAccepted(policy, fallback, box, fuel)
    else
      var rule := rules[0];
      var t := rule.threshold;
      match CategoryIndex(rule.category)
      case None => Failure(MissingKey)
      case Some(d) =>
        match rule.op
        case Less =>
          var taken :- CountAccepted(policy, rule.target, Below(box, d, t), fuel);
          var kept :- CountRules(policy, rules[1..], fallback, AtLeast(box, d, t), fuel);
          Success(taken + kept)
        case Greater =>
          var taken :- CountAccepted(policy, rule.target, AtLeast(box, d, t + 1), fuel);
          var kept :- CountRules(policy, rules[1..], fallback, Below(box, d, t + 1), fuel);
          Success(taken + kept)
        case Equal =>
          var taken :- CountAccepted(policy, rule.target, Below(AtLeast(box, d, t), d, t + 1), fuel);
          var under :- CountRules(policy, rules[1..], fallback, Below(box, d, t), fuel);
          var over :- CountRules(policy, rules[1..], fallback, AtLeast(box, d, t + 1), fuel);
          Success(taken + under + over)
  }

  /** The number of parts with ratings in 1..4000 that the policy accepts. */
  function NumberOfAcceptedCombinations(policy: Policy, fuel: nat): Result<int>
  {
    CountAccepted(policy, "in", FullBox, fuel)
  }

  // ----- the intended count is the number of accepted points -----

  /** 1 at the points whose part reaches `A` from `name`. */
  ghost function LabelIndicator(policy: Policy, name: string, fuel: nat): seq<int> -> int
  {
    p => if |p| == 4 && FinalLabel(policy, name, PartOf(p), fuel) == Success("A") then 1 else 0
  }

  predicate ReachesA(policy: Policy, next: Result<string>, part: Part, fuel: nat)
  {
    next.Success? && FinalLabel(policy, next.value, part, fuel) == Success("A")
  }

  /** 1 at the points whose part the rules send to a label from which it reaches `A`. */
  ghost function RulesIndicator(policy: Policy, rules: seq<Rule>, fallback: string, fuel: nat): seq<int> -> int
  {
    p => if |p| == 4 && ReachesA(policy, FirstTarget(rules, fallback, PartOf(p)), PartOf(p), fuel) then 1 else 0
  }

  /** At one point, the first rule either holds and sends the part to its target, or
      fails and leaves the part to the remaining rules. */
  lemma RulesIndicatorAt(policy: Policy, rules: seq<Rule>, fallback: string, fuel: nat, d: nat, p: seq<int>)
    requires |rules| >= 1 && |p| == 4 && d < 4 && Categories[d] == rules[0].category
    ensures Holds(rules[0].op, p[d], rules[0].threshold) ==>
              RulesIndicator(policy, rules, fallback, fuel)(p) == LabelIndicator(policy, rules[0].target, fuel)(p)
    ensures !Holds(rules[0].op, p[d], rules[0].threshold) ==>
              RulesIndicator(policy, rules, fallback, fuel)(p) == RulesIndicator(policy, rules[1..], fallback, fuel)(p)
  {
    RuleHoldsAt(rules[0], d, p);
    FirstTargetStep(rules, fallback, PartOf(p));
  }

  /** A rule on category `d` compares coordinate `d` of the point. */
  lemma RuleHoldsAt(rule: Rule, d: nat, p: seq<int>)
    requires |p| == 4 && d < 4 && Categories[d] == rule.category
    ensures RuleHolds(rule, PartOf(p)) == Success(Holds(rule.op, p[d], rule.threshold))
  {
    assert Lookup(PartOf(p), rule.category) == Success(p[d]);
  }

  lemma PointOfBox(box: Box, p: seq<int>)
    requires |box| == 4 && InBox(box, [], p)
    ensures |p| == 4 && forall i :: 0 <= i < 4 ==> box[i].0 <= p[i] <= box[i].1
  {
    var empty: seq<int> := [];
    forall i | 0 <= i < 4
      ensures box[i].0 <= p[i] <= box[i].1
    {
      assert box[i].0 <= p[|empty| + i] <= box[i].1;
    }
  }

  /** One step of the `accepts` loop at a rule set, seen from one point. */
  lemma LabelIndicatorStep(policy: Policy, name: string, fuel: nat, p: seq<int>)
    requires name in policy && fuel > 0 && |p| == 4
    ensures var rs := policy[name];
            && (rs.body.Conditions? ==>
                  LabelIndicator(policy, name, fuel)(p) == RulesIndicator(policy, rs.body.rules, rs.fallback, fuel - 1)(p))
            && (rs.body.RawPhrases? && |rs.body.phrases| == 0 ==>
                  LabelIndicator(policy, name, fuel)(p) == LabelIndicator(policy, rs.fallback, fuel - 1)(p))
  {
  }

  lemma {:induction false} CountAcceptedIsPointSum(policy: Policy, name: string, box: Box, fuel: nat)
    requires |box| == 4
    requires CountAccepted(policy, name, box, fuel).Success?
    ensures CountAccepted(policy, name, box, fuel).value == SumOver(box, [], LabelIndicator(policy, name, fuel))
    decreases fuel, 0
  {
    if name !in policy {
      EndLabelIsPointSum(policy, name, box, fuel);
    } else if policy[name].body.Conditions? {
      RuleSetIsPointSum(policy, name, box, fuel);
    } else {
      ForwardIsPointSum(policy, name, box, fuel);
    }
  }

  /** A rule set with conditions counts what its rules count. */
  lemma {:induction false} RuleSetIsPointSum(policy: Policy, name: string, box: Box, fuel: nat)
    requires |box| == 4 && name in policy && policy[name].body.Conditions?
    requires CountAccepted(policy, name, box, fuel).Success?
    ensures CountAccepted(policy, name, box, fuel).value == SumOver(box, [], LabelIndicator(policy, name, fuel))
    decreases fuel, 0, 0
  {
    var rs := policy[name];
    CountAcceptedUnfold(policy, name, box, fuel);
    StepIsPointSum(policy, name, box, fuel);
    CountRulesIsPointSum(policy, rs.body.rules, rs.fallback, box, fuel - 1);
  }

  /** A rule set with an empty body counts what its fallback counts. */
  lemma {:induction false} ForwardIsPointSum(policy: Policy, name: string, box: Box, fuel: nat)
    requires |box| == 4 && name in policy && policy[name].body.RawPhrases?
    requires CountAccepted(policy, name, box, fuel).Success?
    ensures CountAccepted(policy, name, box, fuel).value == SumOver(box, [], LabelIndicator(policy, name, fuel))
    decreases fuel, 0, 0
  {
    var rs := policy[name];
    CountAcceptedUnfold(policy, name, box, fuel);
    StepIsPointSum(policy, name, box, fuel);
    CountAcceptedIsPointSum(policy, rs.fallback, box, fuel - 1);
  }

  /** What `CountAccepted` does at a rule set. */
  lemma CountAcceptedUnfold(policy: Policy, name: string, box: Box, fuel: nat)
    requires |box| == 4 && name in policy && CountAccepted(policy, name, box, fuel).Success?
    ensures fuel > 0
    ensures var rs := policy[name];
            rs.body.Conditions? ==> CountAccepted(policy, name, box, fuel) == CountRules(policy, rs.body.rules, rs.fallback, box, fuel - 1)
    ensures var rs := policy[name];
            rs.body.RawPhrases? ==> |rs.body.phrases| == 0 && CountAccepted(policy, name, box, fuel) == CountAccepted(policy, rs.fallback, box, fuel - 1)
  {
  }

  /** A label that names no rule set counts all of the box or none of it. */
  lemma EndLabelIsPointSum(policy: Policy, name: string, box: Box, fuel: nat)
    requires |box| == 4 && name !in policy
    ensures CountAccepted(policy, name, box, fuel).value == SumOver(box, [], LabelIndicator(policy, name, fuel))
  {
    var f := LabelIndicator(policy, name, fuel);
    var k := if name == "A" then 1 else 0;
    forall p | InBox(box, [], p)
      ensures f(p) == k
    {
      PointOfBox(box, p);
    }
    SumOverConstant(box, [], f, k);
  }

  /** At a rule set, the points reaching `A` are the ones its body sends there. */
  lemma StepIsPointSum(policy: Policy, name: string, box: Box, fuel: nat)
    requires |box| == 4 && name in policy && fuel > 0
    ensures var rs := policy[name];
            var f := LabelIndicator(policy, name, fuel);
            && (rs.body.Conditions? ==>
                  SumOver(box, [], f) == SumOver(box, [], RulesIndicator(policy, rs.body.rules, rs.fallback, fuel - 1)))
            && (rs.body.RawPhrases? && |rs.body.phrases| == 0 ==>
                  SumOver(box, [], f) == SumOver(box, [], LabelIndicator(policy, rs.fallback, fuel - 1)))
  {
    var rs := policy[name];
    var f := LabelIndicator(policy, name, fuel);
    var g := if rs.body.Conditions? then RulesIndicator(policy, rs.body.rules, rs.fallback, fuel - 1)
             else LabelIndicator(policy, rs.fallback, fuel - 1);
    if rs.body.Conditions? || |rs.body.phrases| == 0 {
      forall p | InBox(box, [], p)
        ensures f(p) == g(p)
      {
        PointOfBox(box, p);
        LabelIndicatorStep(policy, name, fuel, p);
      }
      SumOverCongruent(box, [], f, g);
    }
  }

  lemma {:induction false} CountRulesIsPointSum(policy: Policy, rules: seq<Rule>, fallback: string, box: Box, fuel: nat)
    requires |box| == 4
    requires CountRules(policy, rules, fallback, box, fuel).Success?
    ensures CountRules(policy, rules, fallback, box, fuel).value == SumOver(box, [], RulesIndicator(policy, rules, fallback, fuel))
    decreases fuel, 1, |rules|
  {
    if |rules| == 0 {
      var f := RulesIndicator(policy, rules, fallback, fuel);
      var g := LabelIndicator(policy, fallback, fuel);
      CountAcceptedIsPointSum(policy, fallback, box, fuel);
      forall p | InBox(box, [], p)
        ensures f(p) == g(p)
      {
        PointOfBox(box, p);
      }
      SumOverCongruent(box, [], f, g);
    } else {
      var d := CategoryIndex(rules[0].category).value;
      match rules[0].op
      case Less => LessStep(policy, rules, fallback, box, fuel, d);
      case Greater => GreaterStep(policy, rules, fallback, box, fuel, d);
      case Equal => EqualStep(policy, rules, fallback, box, fuel, d);
    }
  }

  lemma BelowPoint(box: Box, d: nat, c: int, p: seq<int>)
    requires |box| == 4 && d < 4 && InBox(Below(box, d, c), [], p)
    ensures |p| == 4 && p[d] < c
  {
    PointOfBox(Below(box, d, c), p);
  }

  lemma AtPoint(box: Box, d: nat, c: int, p: seq<int>)
    requires |box| == 4 && d < 4 && InBox(Below(AtLeast(box, d, c), d, c + 1), [], p)
    ensures |p| == 4 && p[d] == c
  {
    PointOfBox(Below(AtLeast(box, d, c), d, c + 1), p);
  }

  lemma AtLeastPoint(box: Box, d: nat, c: int, p: seq<int>)
    requires |box| == 4 && d < 4 && InBox(AtLeast(box, d, c), [], p)
    ensures |p| == 4 && p[d] >= c
  {
    PointOfBox(AtLeast(box, d, c), p);
  }

  lemma {:induction false} LessStep(policy: Policy, rules: seq<Rule>, fallback: string, box: Box, fuel: nat, d: nat)
    requires |box| == 4 && |rules| >= 1 && rules[0].op == Less
    requires CategoryIndex(rules[0].category) == Some(d)
    requires CountRules(policy, rules, fallback, box, fuel).Success?
    ensures CountRules(policy, rules, fallback, box, fuel).value == SumOver(box, [], RulesIndicator(policy, rules, fallback, fuel))
    decreases fuel, 1, |rules|, 1
  {
    var t := rules[0].threshold;
    var taken := Below(box, d, t);
    var kept := AtLeast(box, d, t);
    LessUnfold(policy, rules, fallback, box, fuel, d);
    LessParts(policy, rules, fallback, box, fuel, d, taken, kept);
  }

  /** For a leading `<` rule: the points below the threshold and the points from it up. */
  lemma LessParts(policy: Policy, rules: seq<Rule>, fallback: string, box: Box, fuel: nat, d: nat, taken: Box, kept: Box)
    requires |box| == 4 && |rules| >= 1 && rules[0].op == Less
    requires CategoryIndex(rules[0].category) == Some(d)
    requires taken == Below(box, d, rules[0].threshold) && kept == AtLeast(box, d, rules[0].threshold)
    requires CountAccepted(policy, rules[0].target, taken, fuel).Success?
    requires CountRules(policy, rules[1..], fallback, kept, fuel).Success?
    ensures CountAccepted(policy, rules[0].target, taken, fuel).value + CountRules(policy, rules[1..], fallback, kept, fuel).value
            == SumOver(box, [], RulesIndicator(policy, rules, fallback, fuel))
    decreases fuel, 1, |rules|, 0, 2
  {
    var t := rules[0].threshold;
    var f := RulesIndicator(policy, rules, fallback, fuel);
    var a := CountAccepted(policy, rules[0].target, taken, fuel).value;
    var b := CountRules(policy, rules[1..], fallback, kept, fuel).value;
    assert a == SumOver(taken, [], f) && b == SumOver(kept, [], f) by {
      LessSides(policy, rules, fallback, box, fuel, d, taken, kept);
    }
    JoinCutAt(box, f, d, t, taken, kept, a, b);
  }

  /** The two sides of a leading `<` rule, each counted as a point sum. */
  lemma LessSides(policy: Policy, rules: seq<Rule>, fallback: string, box: Box, fuel: nat, d: nat, taken: Box, kept: Box)
    requires |box| == 4 && |rules| >= 1 && rules[0].op == Less
    requires CategoryIndex(rules[0].category) == Some(d)
    requires taken == Below(box, d, rules[0].threshold) && kept == AtLeast(box, d, rules[0].threshold)
    requires CountAccepted(policy, rules[0].target, taken, fuel).Success?
    requires CountRules(policy, rules[1..], fallback, kept, fuel).Success?
    ensures CountAccepted(policy, rules[0].target, taken, fuel).value == SumOver(taken, [], RulesIndicator(policy, rules, fallback, fuel))
    ensures CountRules(policy, rules[1..], fallback, kept, fuel).value == SumOver(kept, [], RulesIndicator(policy, rules, fallback, fuel))
    decreases fuel, 1, |rules|, 0, 1
  {
    var t := rules[0].threshold;
    forall p | InBox(taken, [], p)
      ensures Holds(rules[0].op, p[d], t)
    {
      BelowPoint(box, d, t, p);
    }
    forall p | InBox(kept, [], p)
      ensures !Holds(rules[0].op, p[d], t)
    {
      AtLeastPoint(box, d, t, p);
    }
    CutAt(policy, rules, fallback, box, fuel, d, taken, kept);
  }

  /** What `CountRules` computes for a leading `<` rule. */
  lemma LessUnfold(policy: Policy, rules: seq<Rule>, fallback: string, box: Box, fuel: nat, d: nat)
    requires |box| == 4 && |rules| >= 1 && rules[0].op == Less
    requires CategoryIndex(rules[0].category) == Some(d)
    requires CountRules(policy, rules, fallback, box, fuel).Success?
    ensures var t := rules[0].threshold;
            var a := CountAccepted(policy, rules[0].target, Below(box, d, t), fuel);
            var b := CountRules(policy, rules[1..], fallback, AtLeast(box, d, t), fuel);
            a.Success? && b.Success? && CountRules(policy, rules, fallback, box, fuel).value == a.value + b.value
  {
  }

  lemma {:induction false} GreaterStep(policy: Policy, rules: seq<Rule>, fallback: string, box: Box, fuel: nat, d: nat)
    requires |box| == 4 && |rules| >= 1 && rules[0].op == Greater
    requires CategoryIndex(rules[0].category) == Some(d)
    requires CountRules(policy, rules, fallback, box, fuel).Success?
    ensures CountRules(policy, rules, fallback, box, fuel).value == SumOver(box, [], RulesIndicator(policy, rules, fallback, fuel))
    decreases fuel, 1, |rules|, 1
  {
    var t := rules[0].threshold;
    var taken := AtLeast(box, d, t + 1);
    var kept := Below(box, d, t + 1);
    GreaterUnfold(policy, rules, fallback, box, fuel, d);
    GreaterParts(policy, rules, fallback, box, fuel, d, taken, kept);
  }

  /** For a leading `>` rule: the points above the threshold and the points up to it. */
  lemma GreaterParts(policy: Policy, rules: seq<Rule>, fallback: string, box: Box, fuel: nat, d: nat, taken: Box, kept: Box)
    requires |box| == 4 && |rules| >= 1 && rules[0].op == Greater
    requires CategoryIndex(rules[0].category) == Some(d)
    requires taken == AtLeast(box, d, rules[0].threshold + 1) && kept == Below(box, d, rules[0].threshold + 1)
    requires CountAccepted(policy, rules[0].target, taken, fuel).Success?
    requires CountRules(policy, rules[1..], fallback, kept, fuel).Success?
    ensures CountAccepted(policy, rules[0].target, taken, fuel).value + CountRules(policy, rules[1..], fallback, kept, fuel).value
            == SumOver(box, [], RulesIndicator(policy, rules, fallback, fuel))
    decreases fuel, 1, |rules|, 0, 2
  {
    var t := rules[0].threshold;
    var f := RulesIndicator(policy, rules, fallback, fuel);
    var a := CountAccepted(policy, rules[0].target, taken, fuel).value;
    var b := CountRules(policy, rules[1..], fallback, kept, fuel).value;
    assert a == SumOver(taken, [], f) && b == SumOver(kept, [], f) by {
      GreaterSides(policy, rules, fallback, box, fuel, d, taken, kept);
    }
    JoinCutAt(box, f, d, t + 1, kept, taken, b, a);
  }

  /** The two sides of a leading `>` rule, each counted as a point sum. */
  lemma GreaterSides(policy: Policy, rules: seq<Rule>, fallback: string, box: Box, fuel: nat, d: nat, taken: Box, kept: Box)
    requires |box| == 4 && |rules| >= 1 && rules[0].op == Greater
    requires CategoryIndex(rules[0].category) == Some(d)
    requires taken == AtLeast(box, d, rules[0].threshold + 1) && kept == Below(box, d, rules[0].threshold + 1)
    requires CountAccepted(policy, rules[0].target, taken, fuel).Success?
    requires CountRules(policy, rules[1..], fallback, kept, fuel).Success?
    ensures CountAccepted(policy, rules[0].target, taken, fuel).value == SumOver(taken, [], RulesIndicator(policy, rules, fallback, fuel))
    ensures CountRules(policy, rules[1..], fallback, kept, fuel).value == SumOver(kept, [], RulesIndicator(policy, rules, fallback, fuel))
    decreases fuel, 1, |rules|, 0, 1
  {
    var t := rules[0].threshold;
    forall p | InBox(taken, [], p)
      ensures Holds(rules[0].op, p[d], t)
    {
      AtLeastPoint(box, d, t + 1, p);
    }
    forall p | InBox(kept, [], p)
      ensures !Holds(rules[0].op, p[d], t)
    {
      BelowPoint(box, d, t + 1, p);
    }
    CutAt(policy, rules, fallback, box, fuel, d, taken, kept);
  }

  /** Sums over the two named sides of a cut add up to the sum over the box. */
  lemma JoinCutAt(box: Box, f: seq<int> -> int, d: nat, c: int, lower: Box, upper: Box, below: int, above: int)
    requires d < |box| && lower == Below(box, d, c) && upper == AtLeast(box, d, c)
    requires below == SumOver(lower, [], f) && above == SumOver(upper, [], f)
    ensures below + above == SumOver(box, [], f)
  {
    SumOverSplit(box, [], f, d, c);
  }

  /** What `CountRules` computes for a leading `>` rule. */
  lemma GreaterUnfold(policy: Policy, rules: seq<Rule>, fallback: string, box: Box, fuel: nat, d: nat)
    requires |box| == 4 && |rules| >= 1 && rules[0].op == Greater
    requires CategoryIndex(rules[0].category) == Some(d)
    requires CountRules(policy, rules, fallback, box, fuel).Success?
    ensures var t := rules[0].threshold;
            var a := CountAccepted(policy, rules[0].target, AtLeast(box, d, t + 1), fuel);
            var b := CountRules(policy, rules[1..], fallback, Below(box, d, t + 1), fuel);
            a.Success? && b.Success? && CountRules(policy, rules, fallback, box, fuel).value == a.value + b.value
  {
  }

  /** What `CountRules` computes for a leading `=` rule. */
  lemma EqualUnfold(policy: Policy, rules: seq<Rule>, fallback: string, box: Box, fuel: nat, d: nat)
    requires |box| == 4 && |rules| >= 1 && rules[0].op == Equal
    requires CategoryIndex(rules[0].category) == Some(d)
    requires CountRules(policy, rules, fallback, box, fuel).Success?
    ensures var t := rules[0].threshold;
            var a := CountAccepted(policy, rules[0].target, Below(AtLeast(box, d, t), d, t + 1), fuel);
            var b := CountRules(policy, rules[1..], fallback, Below(box, d, t), fuel);
            var c := CountRules(policy, rules[1..], fallback, AtLeast(box, d, t + 1), fuel);
            a.Success? && b.Success? && c.Success?
            && CountRules(policy, rules, fallback, box, fuel).value == a.value + b.value + c.value
  {
  }

  lemma {:induction false} EqualStep(policy: Policy, rules: seq<Rule>, fallback: string, box: Box, fuel: nat, d: nat)
    requires |box| == 4 && |rules| >= 1 && rules[0].op == Equal
    requires CategoryIndex(rules[0].category) == Some(d)
    requires CountRules(policy, rules, fallback, box, fuel).Success?
    ensures CountRules(policy, rules, fallback, box, fuel).value == SumOver(box, [], RulesIndicator(policy, rules, fallback, fuel))
    decreases fuel, 1, |rules|, 1
  {
    var t := rules[0].threshold;
    EqualUnfold(policy, rules, fallback, box, fuel, d);
    EqualParts(policy, rules, fallback, box, fuel, d, Below(box, d, t), Below(AtLeast(box, d, t), d, t + 1), AtLeast(box, d, t + 1));
  }

  /** For a leading `=` rule: the points below, at and above the threshold. */
  lemma EqualParts(policy: Policy, rules: seq<Rule>, fallback: string, box: Box, fuel: nat, d: nat, under: Box, inside: Box, over: Box)
    requires |box| == 4 && |rules| >= 1 && rules[0].op == Equal
    requires CategoryIndex(rules[0].category) == Some(d)
    requires under == Below(box, d, rules[0].threshold) && over == AtLeast(box, d, rules[0].threshold + 1)
    requires inside == Below(AtLeast(box, d, rules[0].threshold), d, rules[0].threshold + 1)
    requires CountAccepted(policy, rules[0].target, inside, fuel).Success?
    requires CountRules(policy, rules[1..], fallback, under, fuel).Success?
    requires CountRules(policy, rules[1..], fallback, over, fuel).Success?
    ensures CountAccepted(policy, rules[0].target, inside, fuel).value + CountRules(policy, rules[1..], fallback, under, fuel).value
            + CountRules(policy, rules[1..], fallback, over, fuel).value
            == SumOver(box, [], RulesIndicator(policy, rules, fallback, fuel))
    decreases fuel, 1, |rules|, 0, 3
  {
    var t := rules[0].threshold;
    var f := RulesIndicator(policy, rules, fallback, fuel);
    var upper := AtLeast(box, d, t);
    var a := CountAccepted(policy, rules[0].target, inside, fuel).value;
    var b := CountRules(policy, rules[1..], fallback, under, fuel).value;
    var c := CountRules(policy, rules[1..], fallback, over, fuel).value;
    assert a + c == SumOver(upper, [], f) && b == SumOver(under, [], f) by {
      EqualUpper(policy, rules, fallback, box, fuel, d, upper, inside, over);
      EqualUnder(policy, rules, fallback, box, fuel, d, under);
    }
    JoinCutAt(box, f, d, t, under, upper, b, a + c);
  }

  /** For a leading `=` rule: the points at the threshold go to the target, the
      points above it to the remaining rules. */
  lemma EqualUpper(policy: Policy, rules: seq<Rule>, fallback: string, box: Box, fuel: nat, d: nat, upper: Box, inside: Box, over: Box)
    requires |box| == 4 && |rules| >= 1 && rules[0].op == Equal
    requires CategoryIndex(rules[0].category) == Some(d)
    requires upper == AtLeast(box, d, rules[0].threshold)
    requires inside == Below(upper, d, rules[0].threshold + 1) && over == AtLeast(box, d, rules[0].threshold + 1)
    requires CountAccepted(policy, rules[0].target, inside, fuel).Success?
    requires CountRules(policy, rules[1..], fallback, over, fuel).Success?
    ensures CountAccepted(policy, rules[0].target, inside, fuel).value + CountRules(policy, rules[1..], fallback, over, fuel).value
            == SumOver(upper, [], RulesIndicator(policy, rules, fallback, fuel))
    decreases fuel, 1, |rules|, 0, 2
  {
    var t := rules[0].threshold;
    var f := RulesIndicator(policy, rules, fallback, fuel);
    var a := CountAccepted(policy, rules[0].target, inside, fuel).value;
    var c := CountRules(policy, rules[1..], fallback, over, fuel).value;
    assert a == SumOver(inside, [], f) && c == SumOver(over, [], f) by {
      EqualUpperParts(policy, rules, fallback, box, fuel, d, upper, inside, over);
    }
    AtLeastTwice(box, d, t);
    JoinCutAt(upper, f, d, t + 1, inside, over, a, c);
  }

  /** The two sides of the cut above a leading `=` rule's threshold, each counted as a point sum. */
  lemma EqualUpperParts(policy: Policy, rules: seq<Rule>, fallback: string, box: Box, fuel: nat, d: nat, upper: Box, inside: Box, over: Box)
    requires |box| == 4 && |rules| >= 1 && rules[0].op == Equal
    requires CategoryIndex(rules[0].category) == Some(d)
    requires upper == AtLeast(box, d, rules[0].threshold)
    requires inside == Below(upper, d, rules[0].threshold + 1) && over == AtLeast(box, d, rules[0].threshold + 1)
    requires CountAccepted(policy, rules[0].target, inside, fuel).Success?
    requires CountRules(policy, rules[1..], fallback, over, fuel).Success?
    ensures CountAccepted(policy, rules[0].target, inside, fuel).value == SumOver(inside, [], RulesIndicator(policy, rules, fallback, fuel))
    ensures CountRules(policy, rules[1..], fallback, over, fuel).value == SumOver(over, [], RulesIndicator(policy, rules, fallback, fuel))
    decreases fuel, 1, |rules|, 0, 1
  {
    var t := rules[0].threshold;
    forall p | InBox(inside, [], p)
      ensures Holds(rules[0].op, p[d], t)
    {
      AtPoint(box, d, t, p);
    }
    forall p | InBox(over, [], p)
      ensures !Holds(rules[0].op, p[d], t)
    {
      AtLeastPoint(box, d, t + 1, p);
    }
    CutAt(policy, rules, fallback, box, fuel, d, inside, over);
  }

  /** For a leading `=` rule: the points below the threshold go to the remaining rules. */
  lemma EqualUnder(policy: Policy, rules: seq<Rule>, fallback: string, box: Box, fuel: nat, d: nat, under: Box)
    requires |box| == 4 && |rules| >= 1 && rules[0].op == Equal
    requires CategoryIndex(rules[0].category) == Some(d)
    requires under == Below(box, d, rules[0].threshold)
    requires CountRules(policy, rules[1..], fallback, under, fuel).Success?
    ensures CountRules(policy, rules[1..], fallback, under, fuel).value == SumOver(under, [], RulesIndicator(policy, rules, fallback, fuel))
    decreases fuel, 1, |rules|, 0, 1
  {
    var t := rules[0].threshold;
    CountRulesIsPointSum(policy, rules[1..], fallback, under, fuel);
    forall p | InBox(under, [], p)
      ensures !Holds(rules[0].op, p[d], t)
    {
      BelowPoint(box, d, t, p);
    }
    KeptPart(policy, rules, fallback, fuel, d, under);
  }

  /** The points of `taken` are the ones the first rule sends to its target. */
  lemma TakenPart(policy: Policy, rules: seq<Rule>, fallback: string, fuel: nat, d: nat, taken: Box)
    requires |rules| >= 1 && |taken| == 4 && d < 4 && Categories[d] == rules[0].category
    requires forall p :: InBox(taken, [], p) ==> Holds(rules[0].op, p[d], rules[0].threshold)
    ensures SumOver(taken, [], RulesIndicator(policy, rules, fallback, fuel))
            == SumOver(taken, [], LabelIndicator(policy, rules[0].target, fuel))
  {
    forall p | InBox(taken, [], p)
      ensures RulesIndicator(policy, rules, fallback, fuel)(p) == LabelIndicator(policy, rules[0].target, fuel)(p)
    {
      PointOfBox(taken, p);
      RulesIndicatorAt(policy, rules, fallback, fuel, d, p);
    }
    SumOverCongruent(taken, [], RulesIndicator(policy, rules, fallback, fuel), LabelIndicator(policy, rules[0].target, fuel));
  }

  /** The points of `kept` are the ones the first rule passes on. */
  lemma KeptPart(policy: Policy, rules: seq<Rule>, fallback: string, fuel: nat, d: nat, kept: Box)
    requires |rules| >= 1 && |kept| == 4 && d < 4 && Categories[d] == rules[0].category
    requires forall p :: InBox(kept, [], p) ==> !Holds(rules[0].op, p[d], rules[0].threshold)
    ensures SumOver(kept, [], RulesIndicator(policy, rules, fallback, fuel))
            == SumOver(kept, [], RulesIndicator(policy, rules[1..], fallback, fuel))
  {
    forall p | InBox(kept, [], p)
      ensures RulesIndicator(policy, rules, fallback, fuel)(p) == RulesIndicator(policy, rules[1..], fallback, fuel)(p)
    {
      PointOfBox(kept, p);
      RulesIndicatorAt(policy, rules, fallback, fuel, d, p);
    }
    SumOverCongruent(kept, [], RulesIndicator(policy, rules, fallback, fuel), RulesIndicator(policy, rules[1..], fallback, fuel));
  }

  /** The induction step for one rule: the taken points are counted at the target and
      the kept points by the remaining rules. */
  lemma CutAt(policy: Policy, rules: seq<Rule>, fallback: string, box: Box, fuel: nat, d: nat, taken: Box, kept: Box)
    requires |rules| >= 1 && |box| == 4 && |taken| == 4 && |kept| == 4 && d < 4 && Categories[d] == rules[0].category
    requires forall p :: InBox(taken, [], p) ==> Holds(rules[0].op, p[d], rules[0].threshold)
    requires forall p :: InBox(kept, [], p) ==> !Holds(rules[0].op, p[d], rules[0].threshold)
    requires CountAccepted(policy, rules[0].target, taken, fuel).Success?
    requires CountRules(policy, rules[1..], fallback, kept, fuel).Success?
    ensures CountAccepted(policy, rules[0].target, taken, fuel).value
            == SumOver(taken, [], RulesIndicator(policy, rules, fallback, fuel))
    ensures CountRules(policy, rules[1..], fallback, kept, fuel).value
            == SumOver(kept, [], RulesIndicator(policy, rules, fallback, fuel))
    decreases fuel, 1, |rules|, 0, 0
  {
    TakenPart(policy, rules, fallback, fuel, d, taken);
    KeptPart(policy, rules, fallback, fuel, d, kept);
    CountAcceptedIsPointSum(policy, rules[0].target, taken, fuel);
    CountRulesIsPointSum(policy, rules[1..], fallback, kept, fuel);
  }

  // ----- the count in terms of `accepts` -----

  /** 1 at the points whose part `Policy.accepts` accepts. */
  ghost function AcceptIndicator(policy: Policy, fuel: nat): seq<int> -> int
  {
    p => if |p| == 4 && Accepts(policy, PartOf(p), fuel) == Success(true) then 1 else 0
  }

  /** At one point, reaching `A` from `in` is what `accepts` says. */
  lemma AcceptIndicatorAt(policy: Policy, fuel: nat, p: seq<int>)
    requires |p| == 4
    ensures LabelIndicator(policy, "in", fuel)(p) == AcceptIndicator(policy, fuel)(p)
    ensures 0 <= AcceptIndicator(policy, fuel)(p) <= 1
  {
  }

  lemma FullBoxVolume()
    ensures Volume(FullBox) == 256_000_000_000_000
  {
    assert FullBox[1..][1..][1..][1..] == [];
  }

  /** The intended count is the number of parts with ratings in 1..4000 that the
      policy accepts, so it lies between 0 and 4000^4. */
  lemma NumberOfAcceptedCombinationsCounts(policy: Policy, fuel: nat)
    requires NumberOfAcceptedCombinations(policy, fuel).Success?
    ensures NumberOfAcceptedCombinations(policy, fuel).value == SumOver(FullBox, [], AcceptIndicator(policy, fuel))
    ensures 0 <= NumberOfAcceptedCombinations(policy, fuel).value <= 256_000_000_000_000
  {
    var f := LabelIndicator(policy, "in", fuel);
    var g := AcceptIndicator(policy, fuel);
    assert NumberOfAcceptedCombinations(policy, fuel).value == SumOver(FullBox, [], f) by {
      CountAcceptedIsPointSum(policy, "in", FullBox, fuel);
    }
    assert SumOver(FullBox, [], f) == SumOver(FullBox, [], g) && 0 <= SumOver(FullBox, [], g) <= Volume(FullBox) by {
      forall p | InBox(FullBox, [], p)
        ensures f(p) == g(p) && 0 <= g(p) <= 1
      {
        PointOfBox(FullBox, p);
        AcceptIndicatorAt(policy, fuel, p);
      }
      SumOverCongruent(FullBox, [], f, g);
      SumOverIndicator(FullBox, [], g);
    }
    FullBoxVolume();
  }

  // ----- two policies on which the count as written goes wrong -----

  /** `in{x<100:R,x<50:A,R}`: no part is accepted (a rating below 50 is also below
      100), but the second rule's target gets the bounds 100..49 from overwriting, and
      a length of -50. */
  const OverwritePolicy: Policy :=
    map["in" := RuleSet("in", Conditions([Rule("x", Less, 100, "R"), Rule("x", Less, 50, "A")]), "R")]

  lemma OverwriteExample()
    ensures CountAsWritten(OverwritePolicy, 1) == Success(-50 * 4000 * 4000 * 4000)
    ensures NumberOfAcceptedCombinations(OverwritePolicy, 1) == Success(0)
  {
    var rules := OverwritePolicy["in"].body.rules;
    var none: Bounds := map[];
    var first := TakenAsWritten(none, rules[0]);
    var rest := RestAsWritten(none, rules[0]);
    var second := TakenAsWritten(rest, rules[1]);
    var last := RestAsWritten(rest, rules[1]);
    assert rules[1..][1..] == [];
    assert Children(rules[1..][1..], "R", last) == [("R", last)];
    assert Children(rules[1..], "R", rest) == [("A", second), ("R", last)];
    var stack := Children(rules, "R", none);
    assert stack == [("R", first), ("A", second), ("R", last)];
    assert Length(second, "x") == -50;
    var v := BoundVolume(second);
    assert v == -50 * 4000 * 4000 * 4000;
    assert stack[..2][..1] == [("R", first)];
    assert stack[..2][..1][..0] == [];
    assert TallyStack(OverwritePolicy, stack[..2][..1], 0) == Success(Tally(0, BoundVolume(first)));
    assert TallyStack(OverwritePolicy, stack[..2], 0) == Success(Tally(v, BoundVolume(first)));
    assert TallyStack(OverwritePolicy, stack, 0) == Success(Tally(v, BoundVolume(first) + BoundVolume(last)));
  }

  /** `in{x=5:A,R}`: the parts with x = 5 are accepted, but `=` is encoded like `>`,
      so the script counts the parts with x above 5. */
  const EqualPolicy: Policy :=
    map["in" := RuleSet("in", Conditions([Rule("x", Equal, 5, "A")]), "R")]

  lemma EqualExample()
    ensures CountAsWritten(EqualPolicy, 1) == Success(3995 * 4000 * 4000 * 4000)
    ensures NumberOfAcceptedCombinations(EqualPolicy, 1) == Success(4000 * 4000 * 4000)
  {
    var rules := EqualPolicy["in"].body.rules;
    var none: Bounds := map[];
    var first := TakenAsWritten(none, rules[0]);
    var rest := RestAsWritten(none, rules[0]);
    assert rules[1..] == [];
    var stack := Children(rules, "R", none);
    assert stack == [("A", first), ("R", rest)];
    assert Length(first, "x") == 3995;
    var v := BoundVolume(first);
    assert v == 3995 * 4000 * 4000 * 4000;
    assert stack[..1] == [("A", first)];
    assert stack[..1][..0] == [];
    assert TallyStack(EqualPolicy, stack[..1], 0) == Success(Tally(v, 0));
    assert TallyStack(EqualPolicy, stack, 0) == Success(Tally(v, BoundVolume(rest)));
    var box := Below(AtLeast(FullBox, 0, 5), 0, 6);
    assert box == [(5, 5), (1, 4000), (1, 4000), (1, 4000)];
    assert box[1..][1..][1..][1..] == [];
    assert Volume(box[1..][1..][1..]) == 4000;
    assert Volume(box[1..][1..]) == 4000 * 4000;
    assert Volume(box[1..]) == 4000 * 4000 * 4000;
    assert Volume(box) == 4000 * 4000 * 4000;
    assert CountRules(EqualPolicy, rules, "R", FullBox, 0) == Success(4000 * 4000 * 4000);
  }
}
