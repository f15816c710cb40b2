/** The shared string helpers of the solutions: first-character search, integer
    lists, horizontal rules, and the one-pass replacement of spelled-out digits. */
module StringManipulations {
  import opened Wrappers
  import opened Text

  // ----- find_first_char_index -----

  /** Index of the first character of `phrase` equal to the string `target`, or -1.
      A character is a one-character string, so a longer `target` never matches and
      the search ends in a TypeError; an empty `target` never matches either and gives -1. */
  function FindFirstCharIndex(phrase: string, target: string): (r: Result<int>)
    ensures r.Failure? <==> |target| > 1
    ensures r.Failure? ==> r.error == WrongType
    ensures r.Success? ==> -1 <= r.value < |phrase|
    ensures r.Success? && r.value >= 0 ==>
              [phrase[r.value]] == target && forall i :: 0 <= i < r.value ==> [phrase[i]] != target
    ensures r == Success(-1) <==> |target| <= 1 && forall i :: 0 <= i < |phrase| ==> [phrase[i]] != target
  {
    if |target| == 1 && IndexOf(phrase, target[0]) < |phrase| then
      Success(IndexOf(phrase, target[0]) as int)
    else if |target| > 1 then
      Failure(WrongType)
    else
      assert forall i :: 0 <= i < |phrase| ==> [phrase[i]] != target by {
        if |target| == 1 {
          forall i | 0 <= i < |phrase| ensures [phrase[i]] != target {
            assert phrase[i] != target[0];
          }
        }
      }
      Success(-1)
  }

  // ----- parse_ints -----

  /** The pieces that are not empty, in order (the `if substring != ''` filter). */
  function NonEmpty(pieces: seq<string>): (r: seq<string>)
    ensures |r| <= |pieces|
    ensures forall p :: p in r ==> p != "" && p in pieces
    ensures forall p :: p in pieces && p != "" ==> p in r
  {
    if |pieces| == 0 then []
    else if pieces[0] == "" then NonEmpty(pieces[1..])
    else [pieces[0]] + NonEmpty(pieces[1..])
  }

  lemma {:induction false} NonEmptyAppend(a: seq<string>, b: seq<string>)
    ensures NonEmpty(a + b) == NonEmpty(a) + NonEmpty(b)
    decreases |a|
  {
    if |a| > 0 {
      assert (a + b)[1..] == a[1..] + b;
      NonEmptyAppend(a[1..], b);
    } else {
      assert a + b == b;
    }
  }

  lemma {:induction false} NonEmptyKeepsAll(pieces: seq<string>)
    requires forall i :: 0 <= i < |pieces| ==> pieces[i] != ""
    ensures NonEmpty(pieces) == pieces
    decreases |pieces|
  {
    if |pieces| > 0 {
      NonEmptyKeepsAll(pieces[1..]);
    }
  }

  /** `int()` of every piece, in order; the first piece that is not a literal fails. */
  function ParseAll(pieces: seq<string>): (r: Result<seq<int>>)
    ensures r.Success? <==> forall i :: 0 <= i < |pieces| ==> ParseInt(pieces[i]).Success?
    ensures r.Failure? ==> r.error == NotAnInteger
    ensures r.Success? ==> |r.value| == |pieces|
    ensures r.Success? ==> forall i :: 0 <= i < |pieces| ==> ParseInt(pieces[i]) == Success(r.value[i])
  {
    if |pieces| == 0 then Success([])
    else
      match ParseInt(pieces[0])
      case Failure(e) => Failure(e)
      case Success(x) =>
        match ParseAll(pieces[1..])
        case Failure(e) => Failure(e)
        case Success(xs) => Success([x] + xs)
  }

  /** The numbers of a phrase: the non-empty pieces of `phrase.split(' ')`. */
  function Words(phrase: string): seq<string>
  {
    NonEmpty(Split(phrase, ' '))
  }

  /** `[int(p) for p in phrase.split(' ') if p != '']`: entry i is `int()` of the i-th
      non-empty piece, and any piece that is not an integer is a ValueError. */
  function ParseInts(phrase: string): (r: Result<seq<int>>)
    ensures r.Success? <==> forall i :: 0 <= i < |Words(phrase)| ==> ParseInt(Words(phrase)[i]).Success?
    ensures r.Failure? ==> r.error == NotAnInteger
    ensures r.Success? ==> |r.value| == |NonEmpty(Split(phrase, ' '))|
    ensures r.Success? ==> forall i :: 0 <= i < |Words(phrase)| ==> ParseInt(Words(phrase)[i]) == Success(r.value[i])
  {
    ParseAll(Words(phrase))
  }

  /** A run of spaces separates numbers exactly as one space does. */
  lemma ParseIntsIgnoresRepeatedSpaces(a: string, b: string)
    ensures ParseInts(a + "  " + b) == ParseInts(a + " " + b)
  {
    assert a + "  " + b == a + [' '] + (" " + b);
    assert " " + b == "" + [' '] + b;
    SplitAround(a, " " + b, ' ');
    SplitAround("", b, ' ');
    SplitAround(a, b, ' ');
    assert Split("", ' ') == [""];
    NonEmptyAppend(Split(a, ' '), [""] + Split(b, ' '));
    NonEmptyAppend([""], Split(b, ' '));
    NonEmptyAppend(Split(a, ' '), Split(b, ' '));
  }

  /** The decimal spellings of a list of integers. */
  function Spell(xs: seq<int>): (r: seq<string>)
    ensures |r| == |xs|
    ensures forall i :: 0 <= i < |xs| ==> r[i] == IntToString(xs[i])
  {
    if |xs| == 0 then [] else [IntToString(xs[0])] + Spell(xs[1..])
  }

  /** `int()` reads back every spelling, so the list parses to itself. */
  lemma ParseAllSpelled(xs: seq<int>)
    ensures ParseAll(Spell(xs)) == Success(xs)
  {
    var pieces := Spell(xs);
    forall i | 0 <= i < |xs| ensures ParseInt(pieces[i]) == Success(xs[i]) {
      ParseIntToString(xs[i]);
    }
    var r := ParseAll(pieces);
    assert r.value == xs;
  }

  /** Reading back a space-separated list of integers gives the list. */
  lemma ParseIntsRoundTrip(xs: seq<int>)
    ensures ParseInts(Join(Spell(xs), ' ')) == Success(xs)
  {
    var pieces := Spell(xs);
    if |xs| == 0 {
      assert Split("", ' ') == [""];
    } else {
      SplitSpelled(xs);
      NonEmptyKeepsAll(pieces);
    }
    ParseAllSpelled(xs);
  }

  /** Numbers written with single spaces split back into their spellings. */
  lemma SplitSpelled(xs: seq<int>)
    requires |xs| > 0
    ensures Split(Join(Spell(xs), ' '), ' ') == Spell(xs)
  {
    var pieces := Spell(xs);
    assert NoSeparator(pieces, ' ') by {
      forall i | 0 <= i < |pieces| ensures ' ' !in pieces[i] {
        var t := IntToString(xs[i]);
        assert forall k :: 0 <= k < |t| ==> t[k] != ' ';
      }
    }
    SplitJoin(pieces, ' ');
  }

  /** A leading space adds only an empty piece, which is dropped. */
  lemma ParseIntsAfterSpace(b: string)
    ensures ParseInts(" " + b) == ParseInts(b)
  {
    assert " " + b == "" + [' '] + b;
    SplitAround("", b, ' ');
    assert Split("", ' ') == [""];
    NonEmptyAppend([""], Split(b, ' '));
    assert NonEmpty([""]) == [];
  }

  // ----- horizontal_rule and pad_with_horizontal_rules -----

  const DefaultRuleChar: string := "-"
  const DefaultRuleLength: int := 50

  /** `rule_char * rule_length`: a non-positive count gives the empty string. The rule
      starts with `ruleChar`, repeats with period `|ruleChar|`, and uses no other character. */
  function HorizontalRule(ruleChar: string, ruleLength: int): (r: string)
    ensures |r| == |ruleChar| * (if ruleLength > 0 then ruleLength else 0)
    ensures ruleLength > 0 ==> r[..|ruleChar|] == ruleChar
    ensures forall i :: 0 <= i < |r| - |ruleChar| ==> r[i + |ruleChar|] == r[i]
    ensures forall i :: 0 <= i < |r| ==> r[i] in ruleChar
    decreases ruleLength
  {
    if ruleLength <= 0 then ""
    else
      var rest := HorizontalRule(ruleChar, ruleLength - 1);
      var r := ruleChar + rest;
      assert forall i :: 0 <= i < |r| - |ruleChar| ==> r[i + |ruleChar|] == r[i] by {
        forall i | 0 <= i < |r| - |ruleChar| ensures r[i + |ruleChar|] == r[i] {
          assert r[i + |ruleChar|] == rest[i];
          if i < |ruleChar| {
            assert rest[..|ruleChar|] == ruleChar;
            assert rest[i] == ruleChar[i];
          } else {
            assert rest[i] == rest[i - |ruleChar|];
          }
        }
      }
      r
  }

  /** The rule, a newline, `x`, a newline and the rule again. */
  function PadWithHorizontalRules(x: string, ruleChar: string, ruleLength: int): (r: string)
    ensures |r| == |x| + 2 + 2 * |ruleChar| * (if ruleLength > 0 then ruleLength else 0)
  {
    var rule := HorizontalRule(ruleChar, ruleLength);
    rule + "\n" + x + "\n" + rule
  }

  /** Split into lines, a padded text is the rule, the text, and the rule. */
  lemma PaddedLines(x: string, ruleChar: string, ruleLength: int)
    requires '\n' !in x && '\n' !in ruleChar
    ensures var rule := HorizontalRule(ruleChar, ruleLength);
            Split(PadWithHorizontalRules(x, ruleChar, ruleLength), '\n') == [rule, x, rule]
  {
    var rule := HorizontalRule(ruleChar, ruleLength);
    assert '\n' !in rule by {
      forall i | 0 <= i < |rule| ensures rule[i] != '\n' {
        assert rule[i] in ruleChar;
      }
    }
    JoinThree(rule, x, rule, '\n');
    assert PadWithHorizontalRules(x, ruleChar, ruleLength) == Join([rule, x, rule], '\n');
    SplitJoin([rule, x, rule], '\n');
  }

  lemma JoinThree(a: string, b: string, c: string, sep: char)
    ensures Join([a, b, c], sep) == a + [sep] + b + [sep] + c
  {
    assert [a, b, c][1..] == [b, c];
    assert [b, c][1..] == [c];
    assert Join([b, c], sep) == b + [sep] + c;
  }

  // ----- parse_int_ignore_spaces -----

  /** `s.replace(' ', '')`. */
  function RemoveSpaces(s: string): (r: string)
    ensures ' ' !in r
    ensures |r| <= |s|
    ensures forall c :: c != ' ' ==> multiset(r)[c] == multiset(s)[c]
  {
    if |s| == 0 then ""
    else
      var rest := RemoveSpaces(s[1..]);
      assert s == [s[0]] + s[1..];
      if s[0] == ' ' then rest else [s[0]] + rest
  }

  lemma {:induction false} RemoveSpacesAppend(a: string, b: string)
    ensures RemoveSpaces(a + b) == RemoveSpaces(a) + RemoveSpaces(b)
    decreases |a|
  {
    if |a| == 0 {
      assert a + b == b;
    } else {
      assert (a + b)[1..] == a[1..] + b;
      RemoveSpacesAppend(a[1..], b);
    }
  }

  lemma {:induction false} RemoveSpacesKeepsSpaceless(s: string)
    requires ' ' !in s
    ensures RemoveSpaces(s) == s
    decreases |s|
  {
    if |s| > 0 {
      RemoveSpacesKeepsSpaceless(s[1..]);
    }
  }

  /** `int(phrase.replace(' ', ''))`. */
  function ParseIntIgnoreSpaces(phrase: string): (r: Result<int>)
    ensures r.Success? <==> IsDecimalLiteral(RemoveSpaces(phrase))
  {
    ParseInt(RemoveSpaces(phrase))
  }

  /** A space anywhere in the phrase changes nothing. */
  lemma ParseIntIgnoresSpace(a: string, b: string)
    ensures ParseIntIgnoreSpaces(a + " " + b) == ParseIntIgnoreSpaces(a + b)
  {
    RemoveSpacesAppend(a + " ", b);
    RemoveSpacesAppend(a, " ");
    RemoveSpacesAppend(a, b);
    assert " "[1..] == "";
    assert RemoveSpaces(" ") == "";
    assert RemoveSpaces(a + " " + b) == RemoveSpaces(a) + RemoveSpaces(b);
  }

  /** Reading back a decimal spelling gives the number. */
  lemma ParseIntIgnoreSpacesRoundTrip(i: int)
    ensures ParseIntIgnoreSpaces(IntToString(i)) == Success(i)
  {
    var t := IntToString(i);
    assert forall k :: 0 <= k < |t| ==> t[k] != ' ';
    RemoveSpacesKeepsSpaceless(t);
    ParseIntToString(i);
  }

  // ----- convert_numeric_in_text_to_digits -----

  /** The alternatives of the substitution pattern, in pattern order; word k+1 spells k+1. */
  const Numerals: seq<string> := ["one", "two", "three", "four", "five", "six", "seven", "eight", "nine"]

  predicate OccursAt(w: string, s: string, j: int)
  {
    0 <= j && j + |w| <= |s| && s[j..j + |w|] == w
  }

  /** No numeral word occurs anywhere in `s`. */
  predicate NoNumeral(s: string)
  {
    forall k, j :: 0 <= k < |Numerals| && 0 <= j <= |s| ==> !OccursAt(Numerals[k], s, j)
  }

  predicate IsLower(c: char)
  {
    'a' <= c <= 'z'
  }

  lemma NumeralFacts()
    ensures |Numerals| == 9
    ensures forall k :: 0 <= k < 9 ==> 3 <= |Numerals[k]| <= 5
    ensures forall k, i :: 0 <= k < 9 && 0 <= i < |Numerals[k]| ==> IsLower(Numerals[k][i])
  {
  }

  /** The pattern's alternatives are tried in order at a position; the first that matches. */
  function MatchFrom(s: string, k: nat): (r: Option<nat>)
    requires k <= |Numerals|
    ensures r.Some? ==> k <= r.value < |Numerals| && OccursAt(Numerals[r.value], s, 0)
    ensures r.None? ==> forall i :: k <= i < |Numerals| ==> !OccursAt(Numerals[i], s, 0)
    decreases |Numerals| - k
  {
    if k == |Numerals| then None
    else if OccursAt(Numerals[k], s, 0) then Some(k)
    else MatchFrom(s, k + 1)
  }

  /** The numeral word `s` starts with, if any (its index in `Numerals`). */
  function MatchAt(s: string): (r: Option<nat>)
    ensures r.Some? ==> r.value < |Numerals| && OccursAt(Numerals[r.value], s, 0)
    ensures r.None? <==> forall i :: 0 <= i < |Numerals| ==> !OccursAt(Numerals[i], s, 0)
  {
    MatchFrom(s, 0)
  }

  /** The word whose first two letters are `c0 c1`: the nine words differ already there. */
  function WordStartingWith(c0: char, c1: char): int
  {
    match [c0, c1]
    case "on" => 0 case "tw" => 1 case "th" => 2 case "fo" => 3 case "fi" => 4
    case "si" => 5 case "se" => 6 case "ei" => 7 case "ni" => 8 case _ => -1
  }

  lemma WordsDifferInTwoLetters()
    ensures forall k :: 0 <= k < |Numerals| ==> WordStartingWith(Numerals[k][0], Numerals[k][1]) == k
  {
    NumeralFacts();
    forall k | 0 <= k < |Numerals|
      ensures WordStartingWith(Numerals[k][0], Numerals[k][1]) == k
    {
      if k == 0 { assert Numerals[k] == "one"; }
      else if k == 1 { assert Numerals[k] == "two"; }
      else if k == 2 { assert Numerals[k] == "three"; }
      else if k == 3 { assert Numerals[k] == "four"; }
      else if k == 4 { assert Numerals[k] == "five"; }
      else if k == 5 { assert Numerals[k] == "six"; }
      else if k == 6 { assert Numerals[k] == "seven"; }
      else if k == 7 { assert Numerals[k] == "eight"; }
      else { assert Numerals[k] == "nine"; }
    }
  }

  /** No numeral word is a prefix of another, so the order of the alternatives does not matter. */
  lemma MatchIsUnique(s: string, k: nat)
    requires k < |Numerals| && OccursAt(Numerals[k], s, 0)
    ensures MatchAt(s) == Some(k)
  {
    NumeralFacts();
    WordsDifferInTwoLetters();
    var m := MatchAt(s).value;
    assert Numerals[m][0] == s[0] == Numerals[k][0];
    assert Numerals[m][1] == s[1] == Numerals[k][1];
  }

  /** One left-to-right pass: at each position a numeral word becomes its digit and
      the scan resumes after the word; any other character is copied. */
  function ConvertNumericInTextToDigits(s: string): (r: string)
    ensures |r| <= |s|
    ensures |s| > 0 ==> |r| > 0 && (IsLower(r[0]) ==> MatchAt(s).None? && r[0] == s[0])
    decreases |s|
  {
    if |s| == 0 then ""
    else
      match MatchAt(s)
      case Some(k) =>
        NumeralFacts();
        [DigitChar(k + 1)] + ConvertNumericInTextToDigits(s[|Numerals[k]|..])
      case None => [s[0]] + ConvertNumericInTextToDigits(s[1..])
  }
  /** A numeral word at the front becomes its own digit, and the scan resumes right
      after the word. */
  lemma ConvertWordThen(k: nat, t: string)
    requires k < 9
    ensures ConvertNumericInTextToDigits(Numerals[k] + t) == [DigitChar(k + 1)] + ConvertNumericInTextToDigits(t)
  {
    NumeralFacts();
    var s := Numerals[k] + t;
    assert s[..|Numerals[k]|] == Numerals[k];
    assert OccursAt(Numerals[k], s, 0);
    MatchIsUnique(s, k);
    assert s[|Numerals[k]|..] == t;
  }

  /** A character that starts no numeral word is copied, and the scan moves one
      character on. */
  lemma ConvertCopies(c: char, t: string)
    requires MatchAt([c] + t).None?
    ensures ConvertNumericInTextToDigits([c] + t) == [c] + ConvertNumericInTextToDigits(t)
  {
    assert ([c] + t)[1..] == t;
  }


  lemma {:induction false} ShrinksWhenNumeralOccurs(s: string, k: nat, j: nat)
    requires k < |Numerals| && OccursAt(Numerals[k], s, j)
    ensures |ConvertNumericInTextToDigits(s)| < |s|
    decreases |s|
  {
    NumeralFacts();
    match MatchAt(s)
    case Some(m) =>
      assert |ConvertNumericInTextToDigits(s[|Numerals[m]|..])| <= |s| - |Numerals[m]|;
    case None =>
      assert j != 0;
      assert OccursAt(Numerals[k], s[1..], j - 1) by {
        assert s[1..][j - 1..j - 1 + |Numerals[k]|] == s[j..j + |Numerals[k]|];
      }
      ShrinksWhenNumeralOccurs(s[1..], k, j - 1);
  }

  lemma {:induction false} NoNumeralUnchanged(s: string)
    requires NoNumeral(s)
    ensures ConvertNumericInTextToDigits(s) == s
    decreases |s|
  {
    if |s| > 0 {
      assert forall i :: 0 <= i < |Numerals| ==> !OccursAt(Numerals[i], s, 0);
      assert NoNumeral(s[1..]) by {
        forall k, j | 0 <= k < |Numerals| ensures !OccursAt(Numerals[k], s[1..], j) {
          if OccursAt(Numerals[k], s[1..], j) {
            assert s[j + 1..j + 1 + |Numerals[k]|] == s[1..][j..j + |Numerals[k]|];
            assert OccursAt(Numerals[k], s, j + 1);
          }
        }
      }
      NoNumeralUnchanged(s[1..]);
    }
  }

  /** The pass changes the text exactly when a numeral word occurs in it. */
  lemma UnchangedIffNoNumeral(s: string)
    ensures ConvertNumericInTextToDigits(s) == s <==> NoNumeral(s)
  {
    if NoNumeral(s) {
      NoNumeralUnchanged(s);
    } else {
      var k: nat, j: nat :| k < |Numerals| && OccursAt(Numerals[k], s, j);
      ShrinksWhenNumeralOccurs(s, k, j);
    }
  }

  /** A stretch of lower-case output was copied from the input unchanged. */
  lemma {:induction false} LowercaseOutputIsCopied(t: string, n: nat)
    requires n <= |ConvertNumericInTextToDigits(t)|
    requires forall i :: 0 <= i < n ==> IsLower(ConvertNumericInTextToDigits(t)[i])
    ensures n <= |t| && t[..n] == ConvertNumericInTextToDigits(t)[..n]
    decreases |t|
  {
    if n > 0 {
      var r := ConvertNumericInTextToDigits(t);
      match MatchAt(t)
      case Some(k) =>
        assert false;
      case None =>
        var rest := ConvertNumericInTextToDigits(t[1..]);
        assert r == [t[0]] + rest;
        assert forall i :: 0 <= i < n - 1 ==> rest[i] == r[i + 1];
        LowercaseOutputIsCopied(t[1..], n - 1);
        SameHeadSamePrefix(t, rest, n);
    }
  }

  lemma SameHeadSamePrefix(t: string, rest: string, n: nat)
    requires 0 < n <= |t| && n - 1 <= |rest| && t[1..][..n - 1] == rest[..n - 1]
    ensures t[..n] == ([t[0]] + rest)[..n]
  {
    assert t[..n] == [t[0]] + t[1..][..n - 1];
    assert ([t[0]] + rest)[..n] == [t[0]] + rest[..n - 1];
  }

  /** A numeral word in `[c] + t` that does not start at `c` lies inside `t`. */
  lemma NoNumeralCons(c: char, t: string)
    requires NoNumeral(t)
    requires forall k :: 0 <= k < |Numerals| ==> !OccursAt(Numerals[k], [c] + t, 0)
    ensures NoNumeral([c] + t)
  {
    var s := [c] + t;
    forall k, j | 0 <= k < |Numerals| && 0 <= j <= |s| ensures !OccursAt(Numerals[k], s, j) {
      if j > 0 {
        OccursBehindHead(Numerals[k], c, t, j);
      }
    }
  }

  /** An occurrence after the first character of `[c] + t` is an occurrence in `t`. */
  lemma OccursBehindHead(w: string, c: char, t: string, j: nat)
    requires 0 < j
    ensures OccursAt(w, [c] + t, j) <==> OccursAt(w, t, j - 1)
  {
    if j + |w| <= |t| + 1 {
      assert ([c] + t)[j..j + |w|] == t[j - 1..j - 1 + |w|];
    }
  }

  lemma DigitHeadKeepsNoNumeral(d: char, t: string)
    requires !IsLower(d) && NoNumeral(t)
    ensures NoNumeral([d] + t)
  {
    NumeralFacts();
    forall k | 0 <= k < |Numerals| ensures !OccursAt(Numerals[k], [d] + t, 0) {
      assert IsLower(Numerals[k][0]);
    }
    NoNumeralCons(d, t);
  }

  /** When the pass copies the first character, a lower-case word starts the output
      only if it starts the input. */
  lemma CopiedHeadStartsNoWord(s: string, w: string)
    requires |s| > 0 && MatchAt(s).None?
    requires |w| >= 1 && forall i :: 0 <= i < |w| ==> IsLower(w[i])
    requires !OccursAt(w, s, 0)
    ensures !OccursAt(w, [s[0]] + ConvertNumericInTextToDigits(s[1..]), 0)
  {
    var r := ConvertNumericInTextToDigits(s);
    assert r == [s[0]] + ConvertNumericInTextToDigits(s[1..]);
    if OccursAt(w, r, 0) {
      assert r[..|w|] == w;
      forall i | 0 <= i < |w| ensures IsLower(r[i]) {
        assert r[i] == w[i];
      }
      LowercaseOutputIsCopied(s, |w|);
      assert false;
    }
  }

  lemma CopiedHeadKeepsNoNumeral(s: string)
    requires |s| > 0 && MatchAt(s).None?
    requires NoNumeral(ConvertNumericInTextToDigits(s[1..]))
    ensures NoNumeral([s[0]] + ConvertNumericInTextToDigits(s[1..]))
  {
    NumeralFacts();
    forall k | 0 <= k < |Numerals|
      ensures !OccursAt(Numerals[k], [s[0]] + ConvertNumericInTextToDigits(s[1..]), 0)
    {
      CopiedHeadStartsNoWord(s, Numerals[k]);
    }
    NoNumeralCons(s[0], ConvertNumericInTextToDigits(s[1..]));
  }

  /** After the pass no numeral word is left: the text the pass copies never contains one. */
  lemma {:induction false} NoNumeralRemains(s: string)
    ensures NoNumeral(ConvertNumericInTextToDigits(s))
    decreases |s|
  {
    NumeralFacts();
    if |s| == 0 {
      assert ConvertNumericInTextToDigits(s) == "";
    } else {
      match MatchAt(s)
      case Some(m) =>
        var t := s[|Numerals[m]|..];
        NoNumeralRemains(t);
        DigitHeadKeepsNoNumeral(DigitChar(m + 1), ConvertNumericInTextToDigits(t));
      case None =>
        NoNumeralRemains(s[1..]);
        CopiedHeadKeepsNoNumeral(s);
    }
  }

  /** A second pass finds nothing to replace. */
  lemma ConvertIsIdempotent(s: string)
    ensures ConvertNumericInTextToDigits(ConvertNumericInTextToDigits(s)) == ConvertNumericInTextToDigits(s)
  {
    NoNumeralRemains(s);
    NoNumeralUnchanged(ConvertNumericInTextToDigits(s));
  }

  /** Overlapping words: the earlier one wins and the later loses its first letters. */
  lemma ConvertOverlapExample()
    ensures ConvertNumericInTextToDigits("twone") == "2ne"
  {
    MatchIsUnique("twone", 1);
    assert "twone"[3..] == "ne";
    assert MatchAt("ne") == None by {
      NumeralFacts();
    }
    assert "ne"[1..] == "e";
    assert MatchAt("e") == None by {
      NumeralFacts();
    }
    assert "e"[1..] == "";
  }
}
