/** Day 19 workflows: named rule sets such as `px{a<2006:qkq,m>2090:A,rfg}` send a
    part to the target of the first rule whose comparison holds, or to the fallback
    target; a policy follows targets from `in` until a label names no rule set and
    accepts the part when that label is `A`. */
module Workflows {
  import opened Wrappers
  import opened Text
  import opened StringManipulations
  import opened Parts

  /** The comparisons of `CHAR_TO_OPERATORS`. */
  datatype Op = Less | Greater | Equal

  function OpChar(op: Op): char
  {
    match op
    case Less => '<'
    case Greater => '>'
    case Equal => '='
  }

  /** `CHAR_TO_OPERATORS[c]`: any other character is a KeyError. */
  function OpFromChar(c: char): (r: Result<Op>)
    ensures r.Success? <==> c == '<' || c == '>' || c == '='
    ensures r.Failure? ==> r.error == MissingKey
    ensures r.Success? ==> OpChar(r.value) == c
  {
    if c == '<' then Success(Less)
    else if c == '>' then Success(Greater)
    else if c == '=' then Success(Equal)
    else Failure(MissingKey)
  }

  lemma OpCharRoundTrip(op: Op)
    ensures OpFromChar(OpChar(op)) == Success(op)
  {
  }

  /** `operation_encoding`: 0 when the comparison is `lt`, 1 for both `gt` and `eq`. */
  function OperationEncoding(op: Op): (e: int)
    ensures e == 0 || e == 1
    ensures e == 0 <==> op == Less
  {
    if op == Less then 0 else 1
  }

  /** `BinaryOperatorWrapper.__call__`: the rating compared with the threshold. */
  predicate Holds(op: Op, x: int, threshold: int)
  {
    match op
    case Less => x < threshold
    case Greater => x > threshold
    case Equal => x == threshold
  }

  /** A rule `a<2006:qkq`: category, comparison, threshold and target label. */
  datatype Rule = Rule(category: string, op: Op, threshold: int, target: string)

  /** The `rules` of a rule set: parsed rules, or (for a line with a single phrase)
      the raw phrases, which the script stores unparsed. */
  datatype RuleList = Conditions(rules: seq<Rule>) | RawPhrases(phrases: seq<string>)

  datatype RuleSet = RuleSet(name: string, body: RuleList, fallback: string)

  /** `Rule.__call__`: the part's rating in the rule's category against the threshold. */
  function RuleHolds(rule: Rule, part: Part): (r: Result<bool>)
    ensures r.Success? <==> HasKey(part, rule.category)
    ensures r.Failure? ==> r.error == MissingKey
    ensures r.Success? ==> exists x :: (rule.category, x) in part && r.value == Holds(rule.op, x, rule.threshold)
  {
    var x :- Lookup(part, rule.category);
    Success(Holds(rule.op, x, rule.threshold))
  }

  /** Rule `i` is the first that holds: every rule before it evaluates to false. */
  predicate FirstHolding(rules: seq<Rule>, part: Part, i: int)
  {
    0 <= i < |rules| && RuleHolds(rules[i], part) == Success(true)
    && forall j :: 0 <= j < i ==> RuleHolds(rules[j], part) == Success(false)
  }

  predicate NoneHolds(rules: seq<Rule>, part: Part)
  {
    forall j :: 0 <= j < |rules| ==> RuleHolds(rules[j], part) == Success(false)
  }

  /** The loop of `RuleSet.__call__`: the target of the first rule that holds, or the
      fallback when none does; a rule whose category the part lacks stops the loop
      with a KeyError. */
  function FirstTarget(rules: seq<Rule>, fallback: string, part: Part): (r: Result<string>)
    ensures r.Failure? ==> r.error == MissingKey
    ensures r.Success? <==> (exists i :: FirstHolding(rules, part, i)) || NoneHolds(rules, part)
    ensures forall i :: FirstHolding(rules, part, i) ==> r == Success(rules[i].target)
    ensures NoneHolds(rules, part) ==> r == Success(fallback)
  {
    if |rules| == 0 then Success(fallback)
    else
      var holds :- RuleHolds(rules[0], part);
      if holds then
        assert FirstHolding(rules, part, 0);
        assert forall i :: FirstHolding(rules, part, i) ==> i == 0;
        Success(rules[0].target)
      else
        FirstHoldingTail(rules, part);
        FirstTarget(rules[1..], fallback, part)
  }

  /** The loop's first round: a rule that holds ends it at its target, a rule that
      fails passes the part to the rules after it. */
  lemma FirstTargetStep(rules: seq<Rule>, fallback: string, part: Part)
    requires |rules| >= 1 && RuleHolds(rules[0], part).Success?
    ensures RuleHolds(rules[0], part).value ==> FirstTarget(rules, fallback, part) == Success(rules[0].target)
    ensures !RuleHolds(rules[0], part).value ==> FirstTarget(rules, fallback, part) == FirstTarget(rules[1..], fallback, part)
  {
  }

  /** When the first rule evaluates to false, the first rule that holds is found
      among the others, one place further on. */
  lemma FirstHoldingTail(rules: seq<Rule>, part: Part)
    requires |rules| >= 1 && RuleHolds(rules[0], part) == Success(false)
    ensures forall i :: FirstHolding(rules, part, i) ==> FirstHolding(rules[1..], part, i - 1)
    ensures forall i :: FirstHolding(rules[1..], part, i) ==> FirstHolding(rules, part, i + 1)
    ensures NoneHolds(rules, part) <==> NoneHolds(rules[1..], part)
  {
    assert forall j :: 1 <= j < |rules| ==> rules[j] == rules[1..][j - 1];
  }

  /** `RuleSet.__call__`. Its `is_always_default` test compares the first rule with the
      class `str` itself, which no rule is, so the loop always runs; over raw phrases
      the loop calls a string, which is a TypeError. */
  function Dispatch(rs: RuleSet, part: Part): (r: Result<string>)
    ensures rs.body.RawPhrases? ==> r == if |rs.body.phrases| == 0 then Success(rs.fallback) else Failure(WrongType)
    ensures rs.body.Conditions? ==> r == FirstTarget(rs.body.rules, rs.fallback, part)
  {
    match rs.body
    case RawPhrases(phrases) => if |phrases| == 0 then Success(rs.fallback) else Failure(WrongType)
    case Conditions(rules) => FirstTarget(rules, rs.fallback, part)
  }

  // ----- Policy -----

  /** `Policy.rule_sets`: rule sets by name. */
  type Policy = map<string, RuleSet>

  /** The loop of `Policy.accepts`: labels are followed from `from` while they name a
      rule set. A workflow graph with a cycle makes the script loop for ever; here each
      step spends one unit of `fuel` and running out is reported as `OutOfFuel`. */
  function FinalLabel(policy: Policy, from: string, part: Part, fuel: nat): (r: Result<string>)
    ensures r.Success? ==> r.value !in policy
    ensures from !in policy ==> r == Success(from)
    ensures from in policy && fuel == 0 ==> r == Failure(OutOfFuel)
    decreases fuel
  {
    if from !in policy then Success(from)
    else if fuel == 0 then Failure(OutOfFuel)
    else
      var next :- Dispatch(policy[from], part);
      FinalLabel(policy, next, part, fuel - 1)
  }

  /** `Policy.accepts`: start at `in`, accept when the final label is `A`. */
  function Accepts(policy: Policy, part: Part, fuel: nat): (r: Result<bool>)
    ensures r.Success? <==> FinalLabel(policy, "in", part, fuel).Success?
    ensures r.Success? ==> (r.value <==> FinalLabel(policy, "in", part, fuel).value == "A")
  {
    var last :- FinalLabel(policy, "in", part, fuel);
    Success(last == "A")
  }

  /** A run of the `accepts` loop: each label but the last names a rule set that sends
      the part to the next label, and the last names none. */
  predicate IsRun(policy: Policy, part: Part, run: seq<string>)
  {
    |run| >= 1 && run[|run| - 1] !in policy
    && forall i :: 0 <= i < |run| - 1 ==> run[i] in policy && Dispatch(policy[run[i]], part) == Success(run[i + 1])
  }

  /** A run of at most `fuel` steps is what the loop follows. */
  lemma {:induction false} RunGivesFinalLabel(policy: Policy, part: Part, run: seq<string>, fuel: nat)
    requires IsRun(policy, part, run) && |run| - 1 <= fuel
    ensures FinalLabel(policy, run[0], part, fuel) == Success(run[|run| - 1])
    decreases |run|
  {
    if |run| > 1 {
      assert IsRun(policy, part, run[1..]) by {
        forall i | 0 <= i < |run[1..]| - 1
          ensures run[1..][i] in policy && Dispatch(policy[run[1..][i]], part) == Success(run[1..][i + 1])
        {
          assert run[1..][i] == run[i + 1] && run[1..][i + 1] == run[i + 2];
        }
      }
      RunGivesFinalLabel(policy, part, run[1..], fuel - 1);
    }
  }

  /** Whatever the loop ends on, it reached along a run of at most `fuel` steps. */
  lemma {:induction false} FinalLabelHasRun(policy: Policy, from: string, part: Part, fuel: nat)
    requires FinalLabel(policy, from, part, fuel).Success?
    ensures exists run :: IsRun(policy, part, run) && run[0] == from && |run| - 1 <= fuel
                          && run[|run| - 1] == FinalLabel(policy, from, part, fuel).value
    decreases fuel
  {
    if from !in policy {
      assert IsRun(policy, part, [from]);
    } else {
      var next := Dispatch(policy[from], part).value;
      FinalLabelHasRun(policy, next, part, fuel - 1);
      var run :| IsRun(policy, part, run) && run[0] == next && |run| - 1 <= fuel - 1
                 && run[|run| - 1] == FinalLabel(policy, next, part, fuel - 1).value;
      RunCons(policy, part, from, run);
      assert FinalLabel(policy, from, part, fuel) == FinalLabel(policy, next, part, fuel - 1);
    }
  }

  /** A label whose rule set sends the part to the start of a run starts a longer run. */
  lemma RunCons(policy: Policy, part: Part, from: string, run: seq<string>)
    requires IsRun(policy, part, run)
    requires from in policy && Dispatch(policy[from], part) == Success(run[0])
    ensures var longer := [from] + run;
            IsRun(policy, part, longer) && longer[0] == from && longer[|longer| - 1] == run[|run| - 1]
  {
    var longer := [from] + run;
    forall i | 0 <= i < |longer| - 1
      ensures longer[i] in policy && Dispatch(policy[longer[i]], part) == Success(longer[i + 1])
    {
      if i > 0 {
        assert longer[i] == run[i - 1] && longer[i + 1] == run[i];
      }
    }
  }

  /** More fuel never changes a label the loop reaches. */
  lemma MoreFuelSameLabel(policy: Policy, from: string, part: Part, fuel: nat, more: nat)
    requires FinalLabel(policy, from, part, fuel).Success? && fuel <= more
    ensures FinalLabel(policy, from, part, more) == FinalLabel(policy, from, part, fuel)
  {
    FinalLabelHasRun(policy, from, part, fuel);
    var run :| IsRun(policy, part, run) && run[0] == from && |run| - 1 <= fuel
               && run[|run| - 1] == FinalLabel(policy, from, part, fuel).value;
    RunGivesFinalLabel(policy, part, run, more);
  }

  // ----- RuleSet.from_line -----

  /** One rule phrase `a<2006:qkq`: split on `:` (the second piece is the target; none
      is an IndexError), then the operator is the criterion's second character (a short
      criterion is an IndexError, an unknown operator a KeyError), the category its
      first character and the threshold `int()` of the rest. */
  function ParseRule(phrase: string): (r: Result<Rule>)
    ensures var halves := Split(phrase, ':');
            r.Success? <==> |halves| >= 2 && |halves[0]| >= 2
                            && OpFromChar(halves[0][1]).Success? && ParseInt(halves[0][2..]).Success?
    ensures var halves := Split(phrase, ':');
            |halves| < 2 || |halves[0]| < 2 ==> r == Failure(IndexOutOfRange)
    ensures var halves := Split(phrase, ':');
            (|halves| >= 2 && |halves[0]| >= 2 && OpFromChar(halves[0][1]).Failure?)
              ==> r == Failure(OpFromChar(halves[0][1]).error)
    ensures var halves := Split(phrase, ':');
            (|halves| >= 2 && |halves[0]| >= 2 && OpFromChar(halves[0][1]).Success? && ParseInt(halves[0][2..]).Failure?)
              ==> r == Failure(NotAnInteger)
    ensures var halves := Split(phrase, ':');
            r.Success? ==> && |r.value.category| == 1 && r.value.category == halves[0][..1]
                           && r.value.op == OpFromChar(halves[0][1]).value
                           && r.value.threshold == ParseInt(halves[0][2..]).value
                           && r.value.target == halves[1]
  {
    var halves := Split(phrase, ':');
    if |halves| < 2 then Failure(IndexOutOfRange)
    else
      var target := halves[1];
      var criterion := halves[0];
      if |criterion| < 2 then Failure(IndexOutOfRange)
      else
        var op :- OpFromChar(criterion[1]);
        var threshold :- ParseInt(criterion[2..]);
        Success(Rule(criterion[..1], op, threshold, target))
  }

  function ParseRules(phrases: seq<string>): Result<seq<Rule>>
  {
    MapResult(ParseRule, phrases)
  }

  /** Where `from_line` finds the name's end: the first `{`, or -1 when there is none,
      as `find_first_char_index` answers for a one-character target. */
  function BraceIndex(line: string): (k: int)
    ensures -1 <= k < |line|
    ensures k >= 0 ==> line[k] == '{' && '{' !in line[..k]
    ensures k == -1 <==> '{' !in line
  {
    var k := FindFirstCharIndex(line, "{").value;
    assert k >= 0 ==> [line[k]] == "{";
    assert k >= 0 ==> forall i :: 0 <= i < k ==> line[..k][i] == line[i] && [line[i]] != "{";
    assert k == -1 ==> forall i :: 0 <= i < |line| ==> [line[i]] != "{";
    k
  }

  /** The comma-separated phrases between the first `{` and the line's last character. */
  function RulePhrases(line: string): (phrases: seq<string>)
    ensures |phrases| >= 1
    ensures Join(phrases, ',') == Slice(line, BraceIndex(line) + 1, -1)
  {
    Split(Slice(line, BraceIndex(line) + 1, -1), ',')
  }

  /** A rule set from its name and phrases: the last phrase is the fallback and the
      others are rules, except that a single phrase is stored raw. */
  function RuleSetOfPhrases(name: string, phrases: seq<string>): (r: Result<RuleSet>)
    requires |phrases| >= 1
    ensures r.Success? <==> |phrases| == 1 || forall i :: 0 <= i < |phrases| - 1 ==> ParseRule(phrases[i]).Success?
    ensures r.Failure? ==> exists i :: 0 <= i < |phrases| - 1 && ParseRule(phrases[i]) == Failure(r.error)
    ensures r.Success? ==> r.value.name == name && r.value.fallback == phrases[|phrases| - 1]
    ensures r.Success? ==> (r.value.body.RawPhrases? <==> |phrases| == 1)
    ensures r.Success? ==> r.value.body.RawPhrases? ==> r.value.body.phrases == phrases
    ensures r.Success? ==> r.value.body.Conditions? ==>
              && |r.value.body.rules| == |phrases| - 1
              && forall i :: 0 <= i < |phrases| - 1 ==> ParseRule(phrases[i]) == Success(r.value.body.rules[i])
  {
    var fallback := phrases[|phrases| - 1];
    if |phrases| == 1 then Success(RuleSet(name, RawPhrases(phrases), fallback))
    else
      var conditions := phrases[..|phrases| - 1];
      var rules := ParseRules(conditions);
      assert forall i :: 0 <= i < |conditions| ==> conditions[i] == phrases[i];
      if rules.Failure? then Failure(rules.error)
      else Success(RuleSet(name, Conditions(rules.value), fallback))
  }

  /** `RuleSet.from_line`: the name is the text before the first `{` and the phrases
      are what lies between it and the final character, split on commas. Parsing fails
      exactly when one of the rule phrases does, with that rule's error. */
  function RuleSetFromLine(line: string): (r: Result<RuleSet>)
    ensures var n := |RulePhrases(line)|;
            r.Success? <==> n == 1 || forall i :: 0 <= i < n - 1 ==> ParseRule(RulePhrases(line)[i]).Success?
    ensures var n := |RulePhrases(line)|;
            r.Failure? ==> exists i :: 0 <= i < n - 1 && ParseRule(RulePhrases(line)[i]) == Failure(r.error)
    ensures r.Success? ==> && r.value.name == Slice(line, 0, BraceIndex(line))
                           && r.value.fallback == RulePhrases(line)[|RulePhrases(line)| - 1]
    ensures r.Success? ==> (r.value.body.RawPhrases? <==> |RulePhrases(line)| == 1)
    ensures r.Success? ==> r.value.body.RawPhrases? ==> r.value.body.phrases == RulePhrases(line)
    ensures r.Success? ==> r.value.body.RawPhrases? ==> |r.value.body.phrases| == 1 && r.value.body.phrases[0] == r.value.fallback
    ensures r.Success? ==> r.value.body.Conditions? ==>
              && |r.value.body.rules| == |RulePhrases(line)| - 1 >= 1
              && forall i :: 0 <= i < |r.value.body.rules| ==> ParseRule(RulePhrases(line)[i]) == Success(r.value.body.rules[i])
  {
    RuleSetOfPhrases(Slice(line, 0, BraceIndex(line)), RulePhrases(line))
  }

  // ----- the written form of a rule set -----

  function RuleText(rule: Rule): string
  {
    rule.category + [OpChar(rule.op)] + IntToString(rule.threshold) + ":" + rule.target
  }

  function RuleTexts(rules: seq<Rule>): (r: seq<string>)
    ensures |r| == |rules|
    ensures forall i :: 0 <= i < |rules| ==> r[i] == RuleText(rules[i])
  {
    if |rules| == 0 then [] else [RuleText(rules[0])] + RuleTexts(rules[1..])
  }

  /** A rule set as a line of the puzzle input. */
  function FormatRuleSet(rs: RuleSet): string
    requires rs.body.Conditions?
  {
    rs.name + "{" + Join(RuleTexts(rs.body.rules) + [rs.fallback], ',') + "}"
  }

  /** Rules a line can carry: a one-character category other than the separators, and
      a target free of them. */
  predicate WritableRule(rule: Rule)
  {
    |rule.category| == 1 && ':' !in rule.category && ',' !in rule.category
    && ':' !in rule.target && ',' !in rule.target
  }

  predicate WritableRuleSet(rs: RuleSet)
  {
    && rs.body.Conditions? && |rs.body.rules| >= 1
    && (forall i :: 0 <= i < |rs.body.rules| ==> WritableRule(rs.body.rules[i]))
    && '{' !in rs.name && ',' !in rs.fallback
  }

  lemma RuleRoundTrip(rule: Rule)
    requires WritableRule(rule)
    ensures ParseRule(RuleText(rule)) == Success(rule)
  {
    var digits := IntToString(rule.threshold);
    var opChar := OpChar(rule.op);
    var criterion := rule.category + [opChar] + digits;
    assert ':' !in digits;
    assert opChar != ':';
    CriterionParts(rule.category, opChar, digits);
    assert Split(RuleText(rule), ':') == [criterion, rule.target] by {
      TwoPieces(criterion, rule.target, ':');
      assert RuleText(rule) == criterion + [':'] + rule.target;
    }
    OpCharRoundTrip(rule.op);
    ParseIntToString(rule.threshold);
  }

  /** Two pieces free of the separator, joined, split back into the two. */
  lemma TwoPieces(a: string, b: string, sep: char)
    requires sep !in a && sep !in b
    ensures Split(a + [sep] + b, sep) == [a, b]
  {
    assert [a, b][1..] == [b];
    SplitJoin([a, b], sep);
  }

  /** The criterion of a written rule: category, operator character, threshold digits. */
  lemma CriterionParts(category: string, opChar: char, digits: string)
    requires |category| == 1 && ':' !in category && opChar != ':' && ':' !in digits
    ensures var criterion := category + [opChar] + digits;
            && ':' !in criterion && |criterion| >= 2
            && criterion[1] == opChar && criterion[..1] == category && criterion[2..] == digits
  {
    var criterion := category + [opChar] + digits;
    assert criterion[2..] == digits;
  }

  lemma RulesRoundTrip(rules: seq<Rule>)
    requires forall i :: 0 <= i < |rules| ==> WritableRule(rules[i])
    ensures ParseRules(RuleTexts(rules)) == Success(rules)
  {
    var texts := RuleTexts(rules);
    forall i | 0 <= i < |rules| ensures ParseRule(texts[i]) == Success(rules[i]) {
      RuleRoundTrip(rules[i]);
    }
    var r := ParseRules(texts);
    assert r.value == rules;
  }

  /** A line `name{body}` whose name has no brace: the first brace follows the name,
      and the text between it and the final character is the body. */
  lemma BracedLine(name: string, body: string)
    requires '{' !in name
    ensures var line := name + "{" + body + "}";
            && FindFirstCharIndex(line, "{") == Success(|name|)
            && Slice(line, 0, |name|) == name
            && Slice(line, |name| + 1, -1) == body
  {
    var line := name + "{" + body + "}";
    assert line[|name|] == '{' && line[..|name|] == name;
    forall i | 0 <= i < |name|
      ensures [line[i]] != "{"
    {
      assert line[i] == name[i];
    }
    assert line[|name| + 1..|line| - 1] == body;
  }

  lemma RuleTextHasNoComma(rule: Rule)
    requires WritableRule(rule)
    ensures ',' !in RuleText(rule)
  {
    var digits := IntToString(rule.threshold);
    assert ',' !in digits;
    assert RuleText(rule) == rule.category + [OpChar(rule.op)] + digits + ":" + rule.target;
  }

  lemma RuleTextsHaveNoComma(rules: seq<Rule>, fallback: string)
    requires forall i :: 0 <= i < |rules| ==> WritableRule(rules[i])
    requires ',' !in fallback
    ensures NoSeparator(RuleTexts(rules) + [fallback], ',')
  {
    var texts := RuleTexts(rules);
    forall i | 0 <= i < |texts|
      ensures ',' !in texts[i]
    {
      RuleTextHasNoComma(rules[i]);
    }
    NoSeparatorSnoc(texts, fallback, ',');
  }

  /** Reading back a written rule set gives the rule set. */
  lemma RuleSetRoundTrip(rs: RuleSet)
    requires WritableRuleSet(rs)
    ensures RuleSetFromLine(FormatRuleSet(rs)) == Success(rs)
  {
    var rules := rs.body.rules;
    var pieces := RuleTexts(rules) + [rs.fallback];
    BracedLine(rs.name, Join(pieces, ','));
    RuleTextsHaveNoComma(rules, rs.fallback);
    SplitJoin(pieces, ',');
    assert pieces[..|pieces| - 1] == RuleTexts(rules);
    RulesRoundTrip(rules);
  }

  // ----- Policy.from_lines -----

  function RuleSetsFromLines(lines: seq<string>): Result<seq<RuleSet>>
  {
    MapResult(RuleSetFromLine, lines)
  }

  /** The dict comprehension `{rs.name: rs for rs in rule_sets}`: a later rule set
      replaces an earlier one of the same name. */
  function PolicyOf(sets: seq<RuleSet>): (p: Policy)
    ensures forall name :: name in p <==> exists i :: 0 <= i < |sets| && sets[i].name == name
    ensures forall i :: 0 <= i < |sets| && (forall j :: i < j < |sets| ==> sets[j].name != sets[i].name)
                        ==> p[sets[i].name] == sets[i]
  {
    if |sets| == 0 then map[]
    else
      var q := PolicyOf(sets[..|sets| - 1]);
      LaterSetReplaces(sets, q);
      q[sets[|sets| - 1].name := sets[|sets| - 1]]
  }

  /** Adding the last rule set to the policy of the others: its name is bound to it,
      and every other name keeps the rule set it was last bound to. */
  lemma LaterSetReplaces(sets: seq<RuleSet>, q: Policy)
    requires |sets| >= 1
    requires var init := sets[..|sets| - 1];
             forall name :: name in q <==> exists i :: 0 <= i < |init| && init[i].name == name
    requires var init := sets[..|sets| - 1];
             forall i :: 0 <= i < |init| && (forall j :: i < j < |init| ==> init[j].name != init[i].name)
                         ==> q[init[i].name] == init[i]
    ensures var p := q[sets[|sets| - 1].name := sets[|sets| - 1]];
            forall name :: name in p <==> exists i :: 0 <= i < |sets| && sets[i].name == name
    ensures var p := q[sets[|sets| - 1].name := sets[|sets| - 1]];
            forall i :: 0 <= i < |sets| && (forall j :: i < j < |sets| ==> sets[j].name != sets[i].name)
                        ==> p[sets[i].name] == sets[i]
  {
    var n := |sets| - 1;
    var init := sets[..n];
    var last := sets[n];
    var p := q[last.name := last];
    assert forall i :: 0 <= i < |init| ==> init[i] == sets[i];
    forall name ensures name in p <==> exists i :: 0 <= i < |sets| && sets[i].name == name {
      if name == last.name {
        assert sets[n].name == name;
      } else if name in q {
        var i :| 0 <= i < |init| && init[i].name == name;
        assert sets[i].name == name;
      }
    }
    forall i | 0 <= i < |sets| && (forall j :: i < j < |sets| ==> sets[j].name != sets[i].name)
      ensures p[sets[i].name] == sets[i]
    {
      if i < n {
        assert sets[n].name != sets[i].name;
        assert forall j :: i < j < |init| ==> init[j].name != init[i].name;
      }
    }
  }

  /** The lines before `b` read exactly when each of them reads as a rule set. */
  lemma RuleSetsBeforeBlank(lines: seq<string>, b: nat)
    requires b <= |lines|
    ensures RuleSetsFromLines(lines[..b]).Success? <==> forall j :: 0 <= j < b ==> RuleSetFromLine(lines[j]).Success?
  {
    assert forall j :: 0 <= j < b ==> lines[..b][j] == lines[j];
  }

  /** `Policy.from_lines`: one rule set per line before the blank line; no blank line,
      or a blank first line, is a TypeError. */
  function PolicyFromLines(lines: seq<string>): (r: Result<Policy>)
    ensures !("" in lines && lines[0] != "") ==> r == Failure(WrongType)
    ensures "" in lines && lines[0] != "" ==>
              (r.Success? <==> forall j :: 0 <= j < IndexOf(lines, "") ==> RuleSetFromLine(lines[j]).Success?)
    ensures r.Success? ==> var sets := RuleSetsFromLines(lines[..IndexOf(lines, "")]);
              sets.Success? && r.value == PolicyOf(sets.value)
  {
    var b := BlankLineIndex(lines);
    if b.Failure? then Failure(b.error)
    else
      var sets := RuleSetsFromLines(lines[..b.value]);
      RuleSetsBeforeBlank(lines, b.value);
      if sets.Failure? then Failure(sets.error) else Success(PolicyOf(sets.value))
  }

}
