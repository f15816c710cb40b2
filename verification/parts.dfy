/** Day 19 parts: a part is a Python dict from category name to rating. Dicts keep
    their keys in insertion order and storing an existing key replaces its value in
    place, so a part is an association list whose keys are distinct. */
module Parts {
  import opened Wrappers
  import opened Text

  type Part = seq<(string, int)>

  predicate HasKey(part: Part, key: string)
  {
    exists i :: 0 <= i < |part| && part[i].0 == key
  }

  predicate DistinctKeys(part: Part)
  {
    forall i, j :: 0 <= i < j < |part| ==> part[i].0 != part[j].0
  }

  /** `part[key]`; an absent key is a KeyError. */
  function Lookup(part: Part, key: string): (r: Result<int>)
    ensures r.Success? <==> HasKey(part, key)
    ensures r.Failure? ==> r.error == MissingKey
    ensures r.Success? ==> (key, r.value) in part
    ensures DistinctKeys(part) ==> forall i :: 0 <= i < |part| && part[i].0 == key ==> r == Success(part[i].1)
  {
    if |part| == 0 then Failure(MissingKey)
    else if part[0].0 == key then Success(part[0].1)
    else
      var r := Lookup(part[1..], key);
      assert forall i :: 1 <= i < |part| ==> part[i] == part[1..][i - 1];
      r
  }

  /** `part[key] = value`: replaces the value of a present key where it stands, and
      otherwise adds the key at the end. */
  function Put(part: Part, key: string, value: int): (r: Part)
    ensures !HasKey(part, key) ==> r == part + [(key, value)]
    ensures HasKey(part, key) ==> |r| == |part|
    ensures forall i :: 0 <= i < |part| ==> r[i].0 == part[i].0
    ensures DistinctKeys(part) ==> DistinctKeys(r)
  {
    if |part| == 0 then [(key, value)]
    else if part[0].0 == key then [(key, value)] + part[1..]
    else
      var rest := Put(part[1..], key, value);
      PutBehindHead(part, key, value, rest);
      [part[0]] + rest
  }

  /** When the first key is another one, storing into the remaining keys and putting
      the first entry back in front keeps what `Put` promises. */
  lemma PutBehindHead(part: Part, key: string, value: int, rest: Part)
    requires |part| >= 1 && part[0].0 != key
    requires !HasKey(part[1..], key) ==> rest == part[1..] + [(key, value)]
    requires HasKey(part[1..], key) ==> |rest| == |part| - 1
    requires forall i :: 0 <= i < |part| - 1 ==> rest[i].0 == part[1..][i].0
    requires DistinctKeys(part[1..]) ==> DistinctKeys(rest)
    ensures var r := [part[0]] + rest;
            && (!HasKey(part, key) ==> r == part + [(key, value)])
            && (HasKey(part, key) ==> |r| == |part|)
            && (forall i :: 0 <= i < |part| ==> r[i].0 == part[i].0)
            && (DistinctKeys(part) ==> DistinctKeys(r))
  {
    var tail := part[1..];
    var r := [part[0]] + rest;
    HasKeyBehindHead(part, key);
    if !HasKey(tail, key) {
      assert part == [part[0]] + tail;
      assert r == part + [(key, value)];
    }
    assert forall i :: 1 <= i < |part| ==> r[i].0 == tail[i - 1].0 == part[i].0;
    if DistinctKeys(part) {
      HeadKeepsDistinct(part, key, rest);
    }
  }

  lemma HasKeyBehindHead(part: Part, key: string)
    requires |part| >= 1 && part[0].0 != key
    ensures HasKey(part, key) <==> HasKey(part[1..], key)
  {
    assert forall i :: 1 <= i < |part| ==> part[i] == part[1..][i - 1];
  }

  /** The first key differs from the keys behind it, which are those of the part
      followed perhaps by `key`, so the keys stay distinct. */
  lemma HeadKeepsDistinct(part: Part, key: string, rest: Part)
    requires |part| >= 1 && part[0].0 != key && DistinctKeys(part)
    requires |rest| == |part| - 1 || (|rest| == |part| && rest[|part| - 1].0 == key)
    requires forall i :: 0 <= i < |part| - 1 ==> rest[i].0 == part[1..][i].0
    requires DistinctKeys(part[1..]) ==> DistinctKeys(rest)
    ensures DistinctKeys([part[0]] + rest)
  {
    var r := [part[0]] + rest;
    assert DistinctKeys(part[1..]);
    forall i, j | 0 <= i < j < |r| ensures r[i].0 != r[j].0 {
      assert r[j] == rest[j - 1];
      if i == 0 && j < |part| {
        assert r[j].0 == part[j].0;
      }
    }
  }

  /** After `part[key] = value`, looking up `key` finds `value` and every other key
      keeps its value. */
  lemma {:induction false} LookupAfterPut(part: Part, key: string, value: int, other: string)
    ensures Lookup(Put(part, key, value), key) == Success(value)
    ensures other != key ==> Lookup(Put(part, key, value), other) == Lookup(part, other)
  {
    if |part| > 0 && part[0].0 != key {
      LookupAfterPut(part[1..], key, value, other);
    }
  }

  /** `sum(part.values())`. */
  function RatingTotal(part: Part): int
  {
    if |part| == 0 then 0 else part[0].1 + RatingTotal(part[1..])
  }

  /** Storing a rating adds its value to the total and takes away the value it
      replaces, if any. */
  lemma {:induction false} RatingTotalAfterPut(part: Part, key: string, value: int)
    ensures var replaced := if HasKey(part, key) then Lookup(part, key).value else 0;
            RatingTotal(Put(part, key, value)) == RatingTotal(part) - replaced + value
  {
    if |part| == 0 {
    } else if part[0].0 == key {
      assert ([(key, value)] + part[1..])[1..] == part[1..];
    } else {
      RatingTotalAfterPut(part[1..], key, value);
      HasKeyBehindHead(part, key);
      var rest := Put(part[1..], key, value);
      assert ([part[0]] + rest)[1..] == rest;
    }
  }

  /** The pieces of a field split on `=`. */
  function Halves(field: string): (r: seq<string>)
    ensures |r| >= 1
  {
    Split(field, '=')
  }

  /** The key of a field: the first piece of `split('=')`. */
  function FieldKey(field: string): string
  {
    Halves(field)[0]
  }

  /** `int()` of the second piece of `split('=')`: no second piece is an IndexError
      and a piece that is not an integer a ValueError. */
  function FieldValue(field: string): (r: Result<int>)
    ensures r.Failure? ==> r.error == IndexOutOfRange || r.error == NotAnInteger
  {
    if |Halves(field)| < 2 then Failure(IndexOutOfRange) else ParseInt(Halves(field)[1])
  }

  /** A field the dict comprehension stores: `split('=')` gives a second piece and
      that piece is an integer. */
  predicate FieldParses(field: string)
  {
    |Halves(field)| >= 2 && IsDecimalLiteral(Halves(field)[1])
  }

  lemma FieldValueParses(field: string)
    ensures FieldValue(field).Success? <==> FieldParses(field)
  {
  }

  /** Every field is one the comprehension stores. */
  predicate AllFieldsParse(fields: seq<string>)
    decreases |fields|
  {
    |fields| == 0 || (FieldValue(fields[0]).Success? && AllFieldsParse(fields[1..]))
  }

  lemma {:induction false} AllFieldsParseEach(fields: seq<string>)
    ensures AllFieldsParse(fields) <==> forall i :: 0 <= i < |fields| ==> FieldParses(fields[i])
    decreases |fields|
  {
    if |fields| > 0 {
      AllFieldsParseEach(fields[1..]);
      FieldValueParses(fields[0]);
      assert forall i :: 1 <= i < |fields| ==> fields[1..][i - 1] == fields[i];
    }
  }

  /** What `part[key]` reads after the fields are stored into `acc`: the value of the
      LAST field whose key is `key`, since a later dict entry replaces an earlier one,
      and the value in `acc` when no field has that key. */
  function FieldLookup(fields: seq<string>, acc: Part, key: string): Result<int>
  {
    if |fields| == 0 then Lookup(acc, key)
    else if FieldKey(fields[|fields| - 1]) == key then FieldValue(fields[|fields| - 1])
    else FieldLookup(fields[..|fields| - 1], acc, key)
  }

  /** Storing the first field into `acc` and the others after it reads as storing all
      of them. */
  lemma {:induction false} FieldLookupAfterFirst(fields: seq<string>, acc: Part, key: string)
    requires |fields| >= 1 && FieldValue(fields[0]).Success?
    ensures FieldLookup(fields[1..], Put(acc, FieldKey(fields[0]), FieldValue(fields[0]).value), key)
              == FieldLookup(fields, acc, key)
    decreases |fields|
  {
    var stored := Put(acc, FieldKey(fields[0]), FieldValue(fields[0]).value);
    if |fields| == 1 {
      assert fields[1..] == [];
      assert fields[..0] == [];
      LookupAfterPut(acc, FieldKey(fields[0]), FieldValue(fields[0]).value, key);
    } else {
      var n := |fields|;
      var init := fields[..n - 1];
      assert fields[1..][n - 2] == fields[n - 1];
      assert fields[1..][..n - 2] == init[1..];
      assert init[0] == fields[0];
      if FieldKey(fields[n - 1]) != key {
        FieldLookupAfterFirst(init, acc, key);
      }
    }
  }

  /** Stores each `key=value` field in turn: `split('=')` of the field, the first piece
      as key and `int()` of the second; a field without `=` is an IndexError and a
      value that is not an integer a ValueError. */
  function StoreFields(fields: seq<string>, acc: Part): (r: Result<Part>)
    ensures r.Success? <==> AllFieldsParse(fields)
    ensures r.Failure? ==> r.error == IndexOutOfRange || r.error == NotAnInteger
    ensures r.Success? && DistinctKeys(acc) ==> DistinctKeys(r.value)
    decreases |fields|
  {
    if |fields| == 0 then Success(acc)
    else
      var v := FieldValue(fields[0]);
      if v.Failure? then Failure(v.error)
      else StoreFields(fields[1..], Put(acc, FieldKey(fields[0]), v.value))
  }

  /** After the fields are stored, each key reads the value of the last field with
      that key, or its value in `acc` when no field has it. */
  lemma {:induction false} StoreFieldsLookup(fields: seq<string>, acc: Part, key: string)
    requires StoreFields(fields, acc).Success?
    ensures Lookup(StoreFields(fields, acc).value, key) == FieldLookup(fields, acc, key)
    decreases |fields|
  {
    if |fields| > 0 {
      StoreFieldsLookup(fields[1..], Put(acc, FieldKey(fields[0]), FieldValue(fields[0]).value), key);
      FieldLookupAfterFirst(fields, acc, key);
    }
  }

  /** The `key=value` fields of a part line: the text inside the outer braces, split
      on commas. */
  function Fields(line: string): (fields: seq<string>)
    ensures |fields| >= 1
  {
    Split(Slice(line, 1, -1), ',')
  }

  /** `part_from_line`: the outer braces are dropped and the text is split on commas
      into `key=value` fields, each stored as `int()` of its value. */
  function PartFromLine(line: string): (r: Result<Part>)
    ensures r.Failure? ==> r.error == IndexOutOfRange || r.error == NotAnInteger
    ensures r.Success? ==> forall key :: Lookup(r.value, key) == FieldLookup(Fields(line), [], key)
    ensures r.Success? ==> DistinctKeys(r.value) && |r.value| >= 1
  {
    var fields := Fields(line);
    var r :- StoreFields(fields, []);
    assert |r| >= 1 by { StoreFieldsNonEmpty(fields, []); }
    assert forall key :: Lookup(r, key) == FieldLookup(fields, [], key) by {
      forall key ensures Lookup(r, key) == FieldLookup(fields, [], key) {
        StoreFieldsLookup(fields, [], key);
      }
    }
    Success(r)
  }

  /** A part line parses exactly when every comma-separated field is `key=value` with
      an integer value. */
  lemma PartFromLineSucceeds(line: string)
    ensures PartFromLine(line).Success? <==> AllFieldsParse(Fields(line))
    ensures PartFromLine(line).Success? <==>
              forall i :: 0 <= i < |Fields(line)| ==> FieldParses(Fields(line)[i])
  {
    AllFieldsParseEach(Fields(line));
  }

  lemma {:induction false} StoreFieldsNonEmpty(fields: seq<string>, acc: Part)
    requires |fields| >= 1 || |acc| >= 1
    ensures StoreFields(fields, acc).Success? ==> |StoreFields(fields, acc).value| >= 1
    decreases |fields|
  {
    if |fields| >= 1 {
      if FieldValue(fields[0]).Success? {
        StoreFieldsNonEmpty(fields[1..], Put(acc, FieldKey(fields[0]), FieldValue(fields[0]).value));
      }
    }
  }

  // ----- the written form of a part -----

  /** One field as the puzzle input writes it: `key=value`. */
  function FieldText(key: string, value: int): string
  {
    key + "=" + IntToString(value)
  }

  function FieldTexts(part: Part): (r: seq<string>)
    ensures |r| == |part|
    ensures forall i :: 0 <= i < |part| ==> r[i] == FieldText(part[i].0, part[i].1)
  {
    if |part| == 0 then [] else [FieldText(part[0].0, part[0].1)] + FieldTexts(part[1..])
  }

  /** A part as a line of the puzzle input: `{x=787,m=2655,a=1222,s=2876}`. */
  function FormatPart(part: Part): string
  {
    "{" + Join(FieldTexts(part), ',') + "}"
  }

  /** Keys a line can carry: none holds the separators. */
  predicate WritableKeys(part: Part)
  {
    forall i :: 0 <= i < |part| ==> ',' !in part[i].0 && '=' !in part[i].0
  }

  lemma FieldTextSplits(key: string, value: int)
    requires '=' !in key
    ensures Split(FieldText(key, value), '=') == [key, IntToString(value)]
  {
    var v := IntToString(value);
    assert '=' !in v;
    assert Join([key, v], '=') == key + "=" + v by {
      assert [key, v][1..] == [v];
    }
    SplitJoin([key, v], '=');
  }

  /** Storing one written field whose key is new appends it. */
  lemma StoreFieldStep(fields: seq<string>, acc: Part, key: string, value: int)
    requires |fields| >= 1 && fields[0] == FieldText(key, value)
    requires '=' !in key && !HasKey(acc, key)
    ensures StoreFields(fields, acc) == StoreFields(fields[1..], acc + [(key, value)])
  {
    FieldTextSplits(key, value);
    ParseIntToString(value);
  }

  lemma MoveHead<T>(a: seq<T>, b: seq<T>)
    requires |b| >= 1
    ensures (a + [b[0]]) + b[1..] == a + b
  {
    assert b == [b[0]] + b[1..];
  }

  lemma {:induction false} StoreFieldTexts(part: Part, acc: Part)
    requires DistinctKeys(acc + part) && WritableKeys(part)
    ensures StoreFields(FieldTexts(part), acc) == Success(acc + part)
    decreases |part|
  {
    if |part| == 0 {
      assert acc + part == acc;
    } else {
      var key := part[0].0;
      var whole := acc + part;
      assert whole[|acc|] == part[0];
      forall j | 0 <= j < |acc|
        ensures acc[j].0 != key
      {
        assert whole[j] == acc[j];
      }
      var texts := FieldTexts(part);
      StoreFieldStep(texts, acc, key, part[0].1);
      assert texts[1..] == FieldTexts(part[1..]);
      MoveHead(acc, part);
      assert WritableKeys(part[1..]) by {
        forall i | 0 <= i < |part[1..]|
          ensures ',' !in part[1..][i].0 && '=' !in part[1..][i].0
        {
          assert part[1..][i] == part[i + 1];
        }
      }
      StoreFieldTexts(part[1..], acc + [part[0]]);
    }
  }

  /** Reading back a written part gives the part, provided it has a field and its keys
      are distinct and free of separators. */
  lemma PartRoundTrip(part: Part)
    requires |part| >= 1 && DistinctKeys(part) && WritableKeys(part)
    ensures PartFromLine(FormatPart(part)) == Success(part)
  {
    var texts := FieldTexts(part);
    var body := Join(texts, ',');
    var line := FormatPart(part);
    assert Slice(line, 1, -1) == body by {
      assert line == "{" + body + "}";
      assert line[1..|line| - 1] == body;
    }
    assert NoSeparator(texts, ',') by {
      forall i | 0 <= i < |texts|
        ensures ',' !in texts[i]
      {
        assert ',' !in IntToString(part[i].1);
        assert texts[i] == part[i].0 + "=" + IntToString(part[i].1);
      }
    }
    SplitJoin(texts, ',');
    StoreFieldTexts(part, []);
    assert [] + part == part;
  }

  // ----- read_parts -----

  /** The loop that finds the blank line separating workflows from parts, with the
      script's check: no blank line, or a blank first line, is a TypeError. */
  function BlankLineIndex(lines: seq<string>): (r: Result<nat>)
    ensures r.Success? <==> "" in lines && lines[0] != ""
    ensures r.Failure? ==> r.error == WrongType
    ensures r.Success? ==> 0 < r.value < |lines| && lines[r.value] == "" && "" !in lines[..r.value]
  {
    var b := IndexOf(lines, "");
    if b == |lines| || b == 0 then Failure(WrongType) else Success(b)
  }

  /** `[part_from_line(line) for line in lines]`. */
  function PartsFromLines(lines: seq<string>): Result<seq<Part>>
  {
    MapResult(PartFromLine, lines)
  }

  /** `read_parts`: one part per line after the blank line. */
  function ReadParts(lines: seq<string>): (r: Result<seq<Part>>)
    ensures !("" in lines && lines[0] != "") ==> r == Failure(WrongType)
    ensures "" in lines && lines[0] != "" ==>
              (r.Success? <==> forall j :: IndexOf(lines, "") < j < |lines| ==> PartFromLine(lines[j]).Success?)
    ensures r.Success? ==> var b := IndexOf(lines, "");
              |r.value| == |lines| - b - 1
              && forall i :: 0 <= i < |r.value| ==> PartFromLine(lines[b + 1 + i]) == Success(r.value[i])
  {
    var b :- BlankLineIndex(lines);
    PartsFromLines(lines[b + 1..])
  }

  /** One line per part, as `FormatPart` writes it. */
  function FormatParts(parts: seq<Part>): (r: seq<string>)
    ensures |r| == |parts|
    ensures forall i :: 0 <= i < |parts| ==> r[i] == FormatPart(parts[i])
  {
    seq(|parts|, i requires 0 <= i < |parts| => FormatPart(parts[i]))
  }

  /** Parts written one per line after a header without blank lines and one blank
      line read back as the same parts. */
  lemma ReadPartsRoundTrip(header: seq<string>, parts: seq<Part>)
    requires |header| >= 1 && "" !in header
    requires forall i :: 0 <= i < |parts| ==> |parts[i]| >= 1 && DistinctKeys(parts[i]) && WritableKeys(parts[i])
    ensures ReadParts(header + [""] + FormatParts(parts)) == Success(parts)
  {
    var texts := FormatParts(parts);
    var lines := header + [""] + texts;
    IndexOfAfter(header, "", texts);
    assert lines[0] == header[0];
    assert lines[|header| + 1..] == texts;
    PartsRoundTrip(parts);
  }

  /** Each written part reads back, so the lines read back as the parts. */
  lemma PartsRoundTrip(parts: seq<Part>)
    requires forall i :: 0 <= i < |parts| ==> |parts[i]| >= 1 && DistinctKeys(parts[i]) && WritableKeys(parts[i])
    ensures PartsFromLines(FormatParts(parts)) == Success(parts)
  {
    var texts := FormatParts(parts);
    forall i | 0 <= i < |parts| ensures PartFromLine(texts[i]) == Success(parts[i]) {
      PartRoundTrip(parts[i]);
    }
    var r := PartsFromLines(texts);
    assert r.value == parts;
  }
}
