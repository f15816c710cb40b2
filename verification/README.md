# Advent of Code solutions: a Dafny model of four components

This project models, in Dafny, four pieces of a collection of Python puzzle
solutions and proves properties of the model:

- **Day 17: the lava grid search.** `Vector` arithmetic and turns, the search node
  `Square`, `LavaGrid.potential_squares`, and the best-first loop
  `minimal_route_heat_loss`. The loop repeatedly removes the first open square of
  least `f = heat_loss + distance_to_end`, marks its block checked, and appends the
  successors that sit on unchecked blocks (modules `Vectors`, `LavaGrid`,
  `RouteSearch`).
- **Day 19: the workflow engine.** Covered here:
  - parsing rule-set lines such as `px{a<2006:qkq,m>2090:A,rfg}` and part lines such as
    `{x=787,m=2655,a=1222,s=2876}`;
  - first-matching-rule dispatch, and following labels from `in` until `A` or `R`;
  - the sum of the ratings of accepted parts;
  - the range counter `number_of_distinct_accepted_combinations` / `bound_volume`
    (modules `Parts`, `Workflows`, `PartManager`, `WorkflowRanges`, `Boxes`).
- **Day 5: interval remapping.** `Map`, `destination`, `lowest_location` and the
  cursor-based reader `FarmingDataReader`, over an in-memory list of lines (module
  `Almanac`).
- **The shared string helpers.** `find_first_char_index`, `parse_ints`,
  `horizontal_rule`, `pad_with_horizontal_rules`, `parse_int_ignore_spaces` and the
  one-pass spelled-digit replacement (module `StringManipulations`).

## Conventions

- **Python built-ins.** `Text` supplies the built-ins the scripts lean on:
  - slicing with negative and out-of-range bounds;
  - `str.split` with a one-character separator, and `str.join`;
  - `int()` on decimal literals.
- **Exceptions.** Every Python exception the modelled code raises on bad input is a
  `Failure` of the `Result` type in `Wrappers`, carrying a `Fault`:
  - `ValueError` becomes `NotAnInteger` or `EmptySequence`;
  - `IndexError` becomes `IndexOutOfRange`;
  - `KeyError` becomes `MissingKey`;
  - `TypeError` becomes `WrongType`;
  - `AttributeError` becomes `NoAttribute`.
- **Fuel.** Loops that the script runs for ever on a cyclic workflow graph take a
  `fuel` bound and report `OutOfFuel` when it runs out.
- **Dicts.** A Python dict from category to rating is an association list with
  distinct keys, kept in insertion order (`Parts.Part`).
- **Coordinates.** On the grid, a coordinate's `x` is the row and its `y` the column,
  as in `grid[x][y]`.

## Model

| member | source | states |
|---|---|---|
| Vectors.Add | solutions/day17/day17_1.py:44-48 | subtracting `b` from `a + b` gives back `a` |
| Vectors.RightTurn | solutions/day17/day17_1.py:54-56 | on a unit vector `rotated_right` gives a unit vector a quarter turn counter-clockwise in (x, y) (cross product 1), and `rotated_left` undoes it |
| Vectors.LeftTurn | solutions/day17/day17_1.py:58-60 | on a unit vector `rotated_left` gives a unit vector a quarter turn the other way (cross product -1), and `rotated_right` undoes it |
| Vectors.FourRightTurns | solutions/day17/day17_1.py:54-56 | four right turns bring a unit vector back to itself |
| Vectors.LongVectorIsStretched | solutions/day17/day17_1.py:54-56 | on a vector of length 2 the formula is not a rotation: (0, 2) becomes (-4, 0) |
| LavaGrid.Goal | solutions/day17/day17_1.py:174 | the final coordinate `(n-1, m-1)` lies on the grid |
| LavaGrid.GridFromLines | solutions/day17/day17_1.py:128-131 | the grid parses exactly when there is at least one line and every character is a digit; no lines is an IndexError, because the constructor reads the width from `grid[0]`; a non-digit is a ValueError; row `i` holds the digit values of line `i` |
| LavaGrid.RowFromLine | solutions/day17/day17_1.py:130 | a line parses exactly when all its characters are digits, and entry `j` is the value of character `j` |
| LavaGrid.DigitOf | solutions/day17/day17_1.py:130 | `int(char)` succeeds exactly on a digit and yields its value in 0..9 |
| LavaGrid.DistancesToEnd | solutions/day17/day17_1.py:122-126 | the table has one row per grid row and `m` entries per row |
| LavaGrid.HeuristicCountsStepsToGoal | solutions/day17/day17_1.py:122-126 | the heuristic at a block is its Manhattan distance to the goal; it is never negative and is 0 exactly at the goal |
| LavaGrid.PathToRoot | solutions/day17/day17_1.py:91-97 | the path ends at the square itself and starts at a square without parent |
| LavaGrid.PathToRootLinks | solutions/day17/day17_1.py:91-97 | each square on the path is the parent of the next one |
| LavaGrid.PathStep | solutions/day17/day17_1.py:91-97 | the blocks on a child's path are those of its parent's path followed by its own block |
| LavaGrid.NeighbourFacts | solutions/day17/day17_1.py:115-116 | the k-th neighbour is the unit step up, left, right or down; its edge check holds exactly when it lies on the grid |
| LavaGrid.EdgeChecks | solutions/day17/day17_1.py:115-116 | there are four checks, and at a block on the grid check k holds exactly when the k-th neighbour (up, left, right, down) lies on the grid (partner: NeighbourFacts) |
| LavaGrid.CandidatesSound | solutions/day17/day17_1.py:146-154 | every kept square is the grid square of an admissible neighbour (on the grid, a unit step away, not the parent's block, allowed by `is_valid_next`) with the current square as parent |
| LavaGrid.CandidatesOrdered | solutions/day17/day17_1.py:146-154 | the loop keeps the squares in the order up, left, right, down |
| LavaGrid.CandidatesComplete | solutions/day17/day17_1.py:146-154 | no admissible neighbour is dropped |
| LavaGrid.PotentialSquares | solutions/day17/day17_1.py:136-154 | the squares returned are exactly one per admissible neighbour, in the order up, left, right, down, each with the current square as parent |
| LavaGrid.ReachableFacts | solutions/day17/day17_1.py:67-79 | every square the search builds lies on the grid; the start square has the zero direction, count 0 and heat loss 0; a child's direction is the unit step from its parent, its heat loss is its block's cost plus the parent's, its count is the parent's plus one when the direction repeats and 0 otherwise, and never exceeds 2 |
| LavaGrid.MakeSquare | solutions/day17/day17_1.py:67-79 | a square keeps its block, estimate and parent; without a parent it has the zero direction, count 0 and its own heat loss; with one it adds the parent's heat loss, its direction leads from the parent's block to its own, and its count is positive exactly when it keeps the parent's direction, one more than the parent's (partner: ReachableFacts) |
| LavaGrid.SquareFromGrid | solutions/day17/day17_1.py:156-166 | the square at a block carries the Manhattan distance from the block to the goal and the block's cost plus the parent's heat loss |
| LavaGrid.FIsCostPlusSteps | solutions/day17/day17_1.py:87-89 | `f` of a built square is the cost of its route plus the unit steps left to the goal, so it is at least the heat lost and equals it at the goal |
| LavaGrid.ValidNextRefusesFourthStep | solutions/day17/day17_1.py:99-103 | on a built square `is_valid_next` refuses a step exactly when the square ends three equal steps in that direction |
| LavaGrid.NoFourEqualSteps | solutions/day17/day17_1.py:99-103 | no square the search builds ends four equal steps in a row |
| LavaGrid.NoFourStraight | solutions/day17/day17_1.py:99-103 | the path of a square the search builds never ends in four equal steps |
| LavaGrid.LastStepOfReachable | solutions/day17/day17_1.py:136-154 | the last step into a built square is a unit step that does not go back to the block before and is not a fourth equal step |
| LavaGrid.ReachableIsWalk | solutions/day17/day17_1.py:136-154 | the blocks on the path of any built square form a route from the top-left block in which every step is allowed |
| LavaGrid.HeatLossIsRouteCost | solutions/day17/day17_1.py:72-76 | the heat loss of a built square is the sum of the block costs along its path, the start block excluded |
| LavaGrid.OneRowWalk | solutions/day17/day17_1.py:99-103 | on a one-row grid a route goes right one block per step and has at most four blocks |
| LavaGrid.OneRowLastStep | solutions/day17/day17_1.py:99-103 | after a rightward run on one row the next allowed step goes right, and not a fourth time |
| LavaGrid.OneRowNoWalkToGoal | solutions/day17/day17_1.py:99-103 | on one row of five or more blocks no route reaches the goal |
| RouteSearch.SelectMin | solutions/day17/day17_1.py:180-188 | the chosen index holds a least `f`, and every earlier square has a strictly larger `f`: it is the first minimum |
| RouteSearch.Unchecked | solutions/day17/day17_1.py:194-204 | a successor is appended exactly when its block is not checked |
| RouteSearch.UncheckedAppend | solutions/day17/day17_1.py:194-204 | the successor filter works square by square: filtering a concatenation concatenates the filtered pieces, and a single square is kept exactly when its block is unchecked |
| RouteSearch.FrontierPop | solutions/day17/day17_1.py:188 | removing the chosen square leaves only buildable squares with simple paths |
| RouteSearch.FrontierStep | solutions/day17/day17_1.py:192-204 | after marking the popped block and appending its unchecked successors, every open square is buildable and its path visits no block twice and lies on checked blocks before its own |
| RouteSearch.RoundDecreases | solutions/day17/day17_1.py:178-204 | each round either checks a new block of the grid or removes a square on a checked block without adding any, so the loop ends |
| RouteSearch.FoundRoute | solutions/day17/day17_1.py:189-190 | a square popped on the goal carries a route to the goal with no repeated block whose cost is its heat loss |
| RouteSearch.SingleBlock | solutions/day17/day17_1.py:170-171 | on a 1x1 grid the start square is on the goal with heat loss 0 and a path of one square |
| RouteSearch.OneRowNoRouteToGoal | solutions/day17/day17_1.py:178-204 | on a single row of five or more blocks no route ends at the goal |
| RouteSearch.MinimalRouteHeatLoss | solutions/day17/day17_1.py:168-204 | the search terminates; the result is a route from the top-left block to the goal with no repeated block, allowed steps and cost equal to the returned heat loss; a 1x1 grid gives `(0, [start])`; a 1xm grid with m >= 5 empties the frontier and gives None |
| Workflows.OpFromChar | solutions/day19/day19_1.py:52 | the table knows exactly `<`, `>` and `=`, and any other character is a KeyError; a known character is the character of the comparison it gives |
| Workflows.OpCharRoundTrip | solutions/day19/day19_1.py:52 | looking up a comparison's character gives back the comparison |
| Workflows.OperationEncoding | solutions/day19/day19_1.py:32 | the code is 0 exactly for `lt`, and 1 for both `gt` and `eq` |
| Workflows.RuleHolds | solutions/day19/day19_1.py:44-45 | a rule evaluates exactly when the part has its category (KeyError otherwise), to the comparison of that rating with the threshold |
| Workflows.FirstTarget | solutions/day19/day19_1.py:68-71 | the result is the target of the first rule that holds when every earlier rule evaluates to false, the fallback when none holds, and a KeyError otherwise |
| Workflows.FirstTargetStep | solutions/day19/day19_1.py:68-71 | a first rule that holds ends the loop at its target; one that fails hands the part to the remaining rules |
| Workflows.Dispatch | solutions/day19/day19_1.py:58-71 | a rule set with parsed rules dispatches by its first holding rule; a rule set whose line held a single phrase keeps that phrase as a string rule, and calling it is a TypeError (`is_always_default` never holds) |
| Workflows.FinalLabel | solutions/day19/day19_1.py:113-116 | the label the loop ends on names no rule set; a start label naming none is the result itself |
| Workflows.RunGivesFinalLabel | solutions/day19/day19_1.py:113-116 | following a run of labels, each rule set sending the part to the next, ends at the run's last label |
| Workflows.FinalLabelHasRun | solutions/day19/day19_1.py:113-116 | every label the loop ends on is reached along such a run no longer than the fuel |
| Workflows.MoreFuelSameLabel | solutions/day19/day19_1.py:113-116 | more fuel never changes a label the loop reaches |
| Workflows.Accepts | solutions/day19/day19_1.py:112-117 | `accepts` succeeds exactly when the label loop ends, and is true exactly when it ends on `A` |
| Workflows.ParseRule | solutions/day19/day19_1.py:88-98 | a phrase parses exactly when it holds a `:`, its criterion has at least two characters, the second is a known operator and the rest is an integer; a missing `:` or a short criterion is an IndexError, an unknown operator a KeyError and a bad threshold a ValueError; the rule's category is the criterion's first character, its operator and threshold come from the second character and the rest, and its target is the text after the `:` (partner: RuleRoundTrip) |
| Workflows.BraceIndex | solutions/day19/day19_1.py:79 | the index of the first `{`, with none before it, or -1 exactly when the line has no `{` |
| Workflows.RuleSetOfPhrases | solutions/day19/day19_1.py:82-100 | the last phrase is the fallback; a single phrase is kept raw; otherwise rule `i` is phrase `i` parsed, and the set parses exactly when every phrase before the last does, failing with the error of one that does not |
| Workflows.RuleSetFromLine | solutions/day19/day19_1.py:76-100 | the name is the text before the first `{` and the phrases are the text between it and the last character, split on commas; it parses exactly when there is one phrase or every phrase but the last parses as a rule; the fallback is the last phrase, a single phrase is kept raw, and otherwise rule `i` is phrase `i` parsed; a failure is the error of some rule phrase |
| Workflows.RuleRoundTrip | solutions/day19/day19_1.py:88-98 | parsing the written form `c<n:target` of a rule gives the rule back |
| Workflows.RulesRoundTrip | solutions/day19/day19_1.py:88-98 | parsing the written rules gives the list of rules back |
| Workflows.BracedLine | solutions/day19/day19_1.py:79-81 | in `name{body}` the first brace follows the name, the text before it is the name and the text between it and the last character is the body |
| Workflows.RuleSetRoundTrip | solutions/day19/day19_1.py:76-100 | reading a written rule set `name{rules,fallback}` gives the rule set back |
| Workflows.PolicyOf | solutions/day19/day19_1.py:129 | the policy binds exactly the names of the rule sets, each to the last rule set of that name |
| Workflows.LaterSetReplaces | solutions/day19/day19_1.py:129 | adding a rule set binds its name to it and keeps every other name's last rule set |
| Workflows.PolicyFromLines | solutions/day19/day19_1.py:120-129 | no blank line, or a blank first line, is a TypeError; otherwise the policy is read exactly when every line before the blank line reads as a rule set, and it is the policy of those rule sets |
| Parts.Lookup | solutions/day19/day19_1.py:45 | `part[key]` succeeds exactly when the key is present (KeyError otherwise) and gives the value stored under it |
| Parts.Put | solutions/day19/day19_1.py:187 | storing a new key appends it; storing a present key keeps the length and every key's place; distinct keys stay distinct |
| Parts.LookupAfterPut | solutions/day19/day19_1.py:187 | after storing, the key gives the new value and every other key its old value |
| Parts.RatingTotalAfterPut | solutions/day19/day19_1.py:181-187 | storing a rating into a part changes `sum(part.values())` by the new value minus the value it replaces, if the key was present |
| Parts.StoreFields | solutions/day19/day19_1.py:186-187 | storing succeeds exactly when every field has a `=` and an integer after it (`AllFieldsParse`); otherwise it is an IndexError or a ValueError; the keys stay distinct |
| Parts.StoreFieldsLookup | solutions/day19/day19_1.py:186-187 | after the fields are stored, each key reads the value of the last field with that key, as a later dict entry replaces an earlier one, or its earlier value when no field has it |
| Parts.AllFieldsParseEach | solutions/day19/day19_1.py:186-187 | all fields parse exactly when each field splits on `=` into at least two pieces whose second is an integer literal |
| Parts.PartFromLine | solutions/day19/day19_1.py:184-187 | a failure is an IndexError or a ValueError; a parsed part maps each key to the value of the last field with that key, and any other key is a KeyError; it has distinct keys and at least one field |
| Parts.PartFromLineSucceeds | solutions/day19/day19_1.py:184-187 | with the outer braces dropped and the text split on commas, the line parses exactly when every field is `key=value` with an integer value |
| Parts.PartRoundTrip | solutions/day19/day19_1.py:184-187 | reading back a written part `{k=v,...}` gives the part, when its keys are distinct and free of separators |
| Parts.BlankLineIndex | solutions/day19/day19_1.py:191-197 | the blank line is found exactly when one exists and the first line is not blank (TypeError otherwise); it is the first blank line |
| Parts.ReadParts | solutions/day19/day19_1.py:190-199 | no blank line, or a blank first line, is a TypeError; otherwise the read succeeds exactly when every line after the blank line parses, and then there is one part per such line, parsed from it (partner: ReadPartsRoundTrip) |
| Parts.ReadPartsRoundTrip | solutions/day19/day19_1.py:184-199 | parts written one per line after a header without blank lines and one blank line read back as the same parts |
| PartManager.AcceptedParts | solutions/day19/day19_1.py:176-177 | the accepted parts are exactly the parts `accepts` accepts, taken from the input; any evaluation failure fails the whole |
| PartManager.AcceptedPartsAppend | solutions/day19/day19_1.py:176-177 | the comprehension works part by part: over a concatenation the first piece's failure comes first, then the second's, and otherwise the accepted parts are those of the first piece followed by those of the second |
| PartManager.AcceptedPartsSingle | solutions/day19/day19_1.py:176-177 | a single part is kept exactly when `accepts` answers true, dropped when it answers false, and its failure is the comprehension's |
| PartManager.SumOfAcceptedParts | solutions/day19/day19_1.py:179-181 | the sum is defined exactly when every part can be evaluated |
| PartManager.SumOfAcceptedPartsCons | solutions/day19/day19_1.py:179-181 | a rejected part adds nothing and an accepted part adds its ratings |
| PartManager.SumOfAcceptedPartsAppend | solutions/day19/day19_1.py:179-181 | the sum over two lists of parts is the sum of their sums |
| WorkflowRanges.BoundVolumeCountsPoints | solutions/day19/day19_1.py:165-168 | while no bounds cross, `bound_volume` (`BoundVolume`) is the number of points of the box the bounds describe; empty bounds give 4000^4 |
| WorkflowRanges.TakenAsWritten | solutions/day19/day19_1.py:148-153 | the taken bounds set the upper bound to t-1 for `<` and the lower bound to t+1 otherwise, overwriting the old bound; other categories keep theirs |
| WorkflowRanges.RestAsWritten | solutions/day19/day19_1.py:152 | the passed-on bounds set the lower bound to t for `<` and the upper bound to t otherwise; other categories keep theirs |
| WorkflowRanges.Children | solutions/day19/day19_1.py:147-162 | a rule set pushes one entry per rule and one for the fallback |
| WorkflowRanges.TallyAsWritten | solutions/day19/day19_1.py:135-162 | an `R` node counts its `bound_volume` as rejected and an `A` node as accepted; any other name must be a rule set (KeyError otherwise) |
| WorkflowRanges.RuleConservesVolume | solutions/day19/day19_1.py:148-152 | the volumes of the taken and passed-on bounds add up to the volume of the bounds |
| WorkflowRanges.ChildrenConserveVolume | solutions/day19/day19_1.py:147-162 | the volumes a rule set pushes add up to the volume it popped |
| WorkflowRanges.TallyConservesVolume | solutions/day19/day19_1.py:131-163 | the count as written loses nothing: the volume sent to `A` plus the volume sent to `R` is the volume it started with |
| WorkflowRanges.CountAsWrittenSplitsBox | solutions/day19/day19_1.py:131-168 | what the count as written calls accepted plus what it calls rejected is the 4000^4 combinations it starts from |
| WorkflowRanges.StackConservesVolume | solutions/day19/day19_1.py:135-143 | `TallyStack`: popping a stack sends the stack's whole volume to `A` or `R` |
| WorkflowRanges.CategoryIndex | solutions/day19/day19_1.py:104 | a category has a position exactly when it is one of x, m, a, s, and it is that position |
| WorkflowRanges.CountAccepted | solutions/day19/day19_1.py:138-143 | (corrected count) at a label that names no rule set, the whole box counts when the label is `A` and nothing otherwise |
| WorkflowRanges.RuleHoldsAt | solutions/day19/day19_1.py:44-45 | a rule on category `d` compares coordinate `d` of the point |
| WorkflowRanges.RulesIndicatorAt | solutions/day19/day19_1.py:68-71 | at a point, a holding first rule sends it to its target and a failing one leaves it to the remaining rules |
| WorkflowRanges.LabelIndicatorStep | solutions/day19/day19_1.py:114-116 | at a rule set, a point reaches `A` exactly when the rule set sends it to a label from which it reaches `A` |
| WorkflowRanges.EndLabelIsPointSum | solutions/day19/day19_1.py:138-143 | at a final label the count is the number of points of the box that the loop accepts there |
| WorkflowRanges.CountAcceptedIsPointSum | solutions/day19/day19_1.py:131-163 | (corrected count) the count from a label is the number of points of the box whose part reaches `A` from that label |
| WorkflowRanges.CountRulesIsPointSum | solutions/day19/day19_1.py:147-162 | (corrected count) the count through a list of rules is the number of points of the box the rules send to a label reaching `A` |
| WorkflowRanges.AcceptIndicatorAt | solutions/day19/day19_1.py:112-117 | at a point, reaching `A` from `in` is what `accepts` answers |
| WorkflowRanges.FullBoxVolume | solutions/day19/day19_1.py:166 | the full rating box has 4000^4 points |
| WorkflowRanges.NumberOfAcceptedCombinationsCounts | solutions/day19/day19_1.py:131-163 | (corrected count) the count is the number of parts with ratings in 1..4000 that `accepts` accepts, hence between 0 and 4000^4 |
| WorkflowRanges.OverwriteExample | solutions/day19/day19_1.py:151-152 | on `in{x<100:R,x<50:A,R}` the count as written is -50 * 4000^3, while no part is accepted |
| WorkflowRanges.EqualExample | solutions/day19/day19_1.py:32 | on `in{x=5:A,R}` the count as written is 3995 * 4000^3, while the parts accepted number 4000^3 |
| Almanac.MapFromRanges | solutions/day5/day5_1.py:12-16 | the map from `dest src len` starts at src, spans len numbers and sends its start to dest |
| Almanac.MapFromNumbers | solutions/day5/day5_1.py:5-16 | a map needs at least three numbers (IndexError otherwise) and uses the first three |
| Almanac.MapSendsSourceToDestination | solutions/day5/day5_1.py:22-26 | `is_within_mapping` (`IsWithinMapping`) holds of a number exactly when src <= s < src + len, and then `destination_assuming_valid` sends it to an image that lies in dest..dest+len-1 at the same distance from the start |
| Almanac.FirstContaining | solutions/day5/day5_1.py:89-92 | the index found is the first map containing the number, or past the end when none does |
| Almanac.Destination | solutions/day5/day5_1.py:86-93 | the list keeps its length; each seed moves by the offset of the first map containing it, and a seed no map contains is unchanged |
| Almanac.Pipeline | solutions/day5/day5_1.py:79-82 | applying the stages keeps the number of seeds |
| Almanac.MinOf | solutions/day5/day5_1.py:83 | the minimum is one of the numbers and no number is smaller |
| Almanac.Minimum | solutions/day5/day5_1.py:83 | `min` of an empty list is a ValueError; otherwise it returns an element no other element is below |
| Almanac.LowestLocation | solutions/day5/day5_1.py:78-83 | the result is the least seed after every stage is applied in order, and an empty seed list is a ValueError |
| Almanac.ParseSeedNumbers | solutions/day5/day5_1.py:47-57 | with no blank line the phrase stays None and slicing it is a TypeError; otherwise the read succeeds exactly when the joined lines before the blank line, six characters dropped, parse as integers, those are the seeds, and the cursor moves just past the blank line (partner: SeedsRoundTrip) |
| Almanac.SeedsRoundTrip | solutions/day5/day5_1.py:47-57 | a `seeds:` line with the numbers separated by single spaces, then a blank line, reads back as the numbers, and the cursor lands after the blank line |
| Almanac.MapFromLine | solutions/day5/day5_1.py:74 | a map line reads exactly when every space-separated piece is an integer and there are at least three; a bad piece's ValueError is the line's failure, and the map is the one of the first three numbers (partner: MapLineRoundTrip) |
| Almanac.MapLineRoundTrip | solutions/day5/day5_1.py:74 | the line `dest src len` written with single spaces reads back as the map from those three numbers |
| Almanac.BlockEnd | solutions/day5/day5_1.py:62-72 | a block ends at the first blank line before the last line, or at the end of the input |
| Almanac.ParseNextSourceToDestinationMap | solutions/day5/day5_1.py:59-75 | a cursor at or beyond the end is a TypeError; a read keeps the lines and moves the cursor forward |
| Almanac.NextPhrase | solutions/day5/day5_1.py:62-72 | the loop always moves the cursor forward |
| Almanac.NextMapBlock | solutions/day5/day5_1.py:59-75 | the maps read are those of the lines strictly between the header and the block's end; the cursor moves past the blank line, or only past the header when the block runs to the end of the input |
| Almanac.NextPhraseIsBlock | solutions/day5/day5_1.py:62-72 | the lines handed to `Map` are the block's lines |
| Almanac.BlankEndsBlock | solutions/day5/day5_1.py:68-72 | a blank line before the last line ends the block, and the cursor moves past it |
| Almanac.LastLineEndsBlock | solutions/day5/day5_1.py:63-66 | with no blank line before the last line the block runs to the end and the cursor moves only past the header |
| Almanac.ParseStages | solutions/day5/day5_1.py:98 | reading `count` blocks gives `count` lists of maps and keeps the lines; reading a block with the cursor past the end is a TypeError |
| Almanac.ParseStagesStep | solutions/day5/day5_1.py:59-75 | the first stage read is the maps of the block at the cursor and the others are read from where that block leaves the cursor; a failure in the first block is the failure of the whole read, then one in the later blocks |
| Almanac.LowestLocationFromLines | solutions/day5/day5_1.py:96-99 | a seeds failure is the result, then a failure reading the seven blocks, then a ValueError for no seeds; otherwise the result is a location of the parsed seeds after the seven parsed stages, and no such location is lower |
| StringManipulations.FindFirstCharIndex | handy_dandy_library/string_manipulations.py:35-43 | the result is the first index holding the target character, -1 when there is none and the target has at most one character, and a TypeError for a longer target |
| StringManipulations.ParseAll | handy_dandy_library/string_manipulations.py:47 | the list parses exactly when every piece is an integer literal, and entry `i` is `int()` of piece `i` |
| StringManipulations.ParseInts | handy_dandy_library/string_manipulations.py:46-47 | the phrase parses exactly when every non-empty piece of the split on spaces is an integer literal; otherwise it is a ValueError; entry `i` is `int()` of the i-th non-empty piece |
| StringManipulations.ParseIntsIgnoresRepeatedSpaces | handy_dandy_library/string_manipulations.py:46-47 | two spaces separate numbers just as one does |
| StringManipulations.ParseAllSpelled | handy_dandy_library/string_manipulations.py:47 | parsing the spellings of a list of integers gives the list |
| StringManipulations.ParseIntsRoundTrip | handy_dandy_library/string_manipulations.py:46-47 | parsing the space-joined spellings of a list of integers gives the list |
| StringManipulations.HorizontalRule | handy_dandy_library/string_manipulations.py:50-51 | the rule is `k` copies of the string `c` laid end to end (empty for k <= 0): its length is k times the length of `c`, it starts with `c`, repeats with the length of `c` as period, and uses only characters of `c` |
| StringManipulations.PaddedLines | handy_dandy_library/string_manipulations.py:54-56 | splitting a padded text at newlines gives the rule, `x` and the rule |
| StringManipulations.PadWithHorizontalRules | handy_dandy_library/string_manipulations.py:54-56 | the padded text is the text plus two rules and two newlines long (partner: PaddedLines) |
| StringManipulations.RemoveSpaces | handy_dandy_library/string_manipulations.py:60 | the result has no space and keeps every other character with its multiplicity |
| StringManipulations.ParseIntIgnoreSpaces | handy_dandy_library/string_manipulations.py:59-60 | the phrase parses exactly when the phrase without spaces is an integer literal |
| StringManipulations.ParseIntIgnoresSpace | handy_dandy_library/string_manipulations.py:59-60 | a space anywhere in the phrase changes nothing |
| StringManipulations.ParseIntIgnoreSpacesRoundTrip | handy_dandy_library/string_manipulations.py:59-60 | the spelling of an integer parses back to it |
| StringManipulations.NumeralFacts | handy_dandy_library/string_manipulations.py:4 | there are nine numeral words of three to five lower-case letters |
| StringManipulations.MatchAt | handy_dandy_library/string_manipulations.py:24-27 | the pattern matches at the start exactly when some numeral word begins the text, and gives that word |
| StringManipulations.WordsDifferInTwoLetters | handy_dandy_library/string_manipulations.py:4 | the nine words differ in their first two letters |
| StringManipulations.MatchIsUnique | handy_dandy_library/string_manipulations.py:22-32 | at most one numeral word begins any text, so the order of the alternatives does not matter |
| StringManipulations.ConvertNumericInTextToDigits | handy_dandy_library/string_manipulations.py:22-32 | the pass never lengthens the text, and a lower-case first output character was copied from a text no word begins |
| StringManipulations.ConvertWordThen | handy_dandy_library/string_manipulations.py:4-32 | a numeral word at the front becomes its own digit (`one` becomes `1`, ..., `nine` becomes `9`) and the pass resumes right after the word |
| StringManipulations.ConvertCopies | handy_dandy_library/string_manipulations.py:22-32 | a character that starts no numeral word is copied and the pass moves one character on |
| StringManipulations.ShrinksWhenNumeralOccurs | handy_dandy_library/string_manipulations.py:22-32 | a text containing a numeral word gets shorter |
| StringManipulations.NoNumeralUnchanged | handy_dandy_library/string_manipulations.py:22-32 | a text without numeral words is unchanged |
| StringManipulations.UnchangedIffNoNumeral | handy_dandy_library/string_manipulations.py:22-32 | the pass changes the text exactly when a numeral word occurs in it |
| StringManipulations.LowercaseOutputIsCopied | handy_dandy_library/string_manipulations.py:22-32 | a lower-case stretch at the start of the output was copied unchanged from the input |
| StringManipulations.NoNumeralRemains | handy_dandy_library/string_manipulations.py:22-32 | no numeral word occurs in the output |
| StringManipulations.ConvertIsIdempotent | handy_dandy_library/string_manipulations.py:22-32 | a second pass changes nothing |
| StringManipulations.ConvertOverlapExample | handy_dandy_library/string_manipulations.py:22-32 | overlapping words: "twone" becomes "2ne" |
| Text.Slice | solutions/day19/day19_1.py:81 | Python slicing: bounds inside the sequence give that subsequence, `-1` as end drops the last element, an end beyond the length stops at the end, and crossed bounds give the empty sequence |
| Text.Split | solutions/day19/day19_1.py:89 | `str.split`: the pieces hold no separator, joining them with it gives back the text, and there is a single piece exactly when the separator does not occur (partner: SplitJoin) |
| Text.SplitJoin | solutions/day19/day19_1.py:81 | splitting pieces joined with a separator none of them holds gives back the pieces |
| Text.ParseInt | solutions/day19/day19_1.py:95 | `int()` succeeds exactly on an optionally signed run of decimal digits and is a ValueError otherwise (partner: ParseIntToString) |
| Text.ParseIntToString | solutions/day19/day19_1.py:95 | `int(str(i))` is `i` for every integer |

## Left out

- **Input and output.** File reading (`read_lines`) and the file load in the
  `FarmingDataReader` constructor are left out: the reader is given its lines.
  Every `print`, `tests` and `main` are left out too. The sample answers those
  tests check (102, 493, 19114, 35) need puzzle input files that are not part of
  this model.
- **Cosmetic code.** `__repr__`, `make_blue`, `PrintColors` and the direction-name
  tables of `UnitVector` are left out; none affects a result.
- **Broken helpers.** Three helpers are broken and nothing calls them, so they are
  not modelled:
  - `Vector.manhattan_distance` calls `abs` with two arguments;
  - `LavaGrid.is_inside_bounds` uses `<=` against the sizes;
  - `Map.overlaps` is not an overlap test.
- **`int()` and `re`.** Only Python's `int()` on optional-sign decimal literals is
  modelled: surrounding whitespace, underscores and other digit sets are not. The
  regular-expression substitution is modelled as an explicit left-to-right scan
  trying the alternatives in pattern order.
- RouteSearch.MinimalRouteHeatLoss: does not state that the returned heat loss is
  the least over all routes. Blocks are marked checked per coordinate, whatever the
  direction and count they were reached with, so the search is not an exact
  shortest-route algorithm, and no optimality claim is proved.
- RouteSearch.MinimalRouteHeatLoss: requires `IsGrid`: a non-empty first row and no
  shorter row. With no lines at all, `from_lines` already fails, and
  `LavaGrid.GridFromLines` models that IndexError. With an empty first row, the
  script raises IndexError when it builds the start square. A row shorter than the
  first raises IndexError only if the search builds a square on a block that row
  lacks, and whether it does depends on the route taken. Neither search path is
  modelled.
- RouteSearch.Unchecked: the loop comparing a successor against open squares on the
  same block (lines 200-202) is not modelled. Its `continue` only ends a turn of
  that inner loop, so it never stops a successor from being appended.
- RouteSearch.MinimalRouteHeatLoss: the checked grid is a set of coordinates, not a
  matrix of flags.
- Workflows.FinalLabel: a cyclic workflow graph makes the script loop for ever. The
  model spends one unit of fuel per rule set and reports `OutOfFuel`.
  `WorkflowRanges.TallyAsWritten` and `WorkflowRanges.CountAccepted` do the same.
- Workflows.Dispatch: calling a rule set whose body holds one raw phrase is a
  TypeError in the script, and it is modelled as that failure. No property is
  proved about such rule sets beyond it. A rule set with no raw phrase at all cannot
  be read from a line, because `RuleSetFromLine` keeps raw phrases only when there
  is exactly one, and the script's constructor would fail on `rules[0]`. For that
  value the model follows `__call__`, whose empty loop returns the default target.
- WorkflowRanges.NumberOfAcceptedCombinationsCounts: stated only for rules on the
  categories x, m, a and s. A rule on another category fails with `MissingKey` in
  the corrected count. The count as written instead stores a bound nothing reads.

## Findings

| source | as written | input that shows it | evidently intended | confidence | as-written member | corrected member |
|---|---|---|---|---|---|---|
| solutions/day19/day19_1.py:151-152 | the bounds for a rule's target and for the remaining rules overwrite the category's old bound instead of intersecting with it, and `bound_volume` does not clamp a crossed length at zero | `in{x<100:R,x<50:A,R}`: the second rule's target gets x in 100..49, a length of -50, so the count is -50 * 4000^3 | the number of parts with ratings in 1..4000 that the policy accepts, here 0 | not executed | WorkflowRanges.OverwriteExample | WorkflowRanges.NumberOfAcceptedCombinationsCounts |
| solutions/day19/day19_1.py:32 | `operation_encoding` is 1 for `=` as for `>`, so an `=` rule is counted as a `>` rule | `in{x=5:A,R}`: the count is 3995 * 4000^3 | 4000^3: the parts with x = 5 | not executed | WorkflowRanges.EqualExample | WorkflowRanges.NumberOfAcceptedCombinationsCounts |
