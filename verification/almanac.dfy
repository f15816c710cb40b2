/** Day 5: seeds pass through seven stages of interval maps; each stage sends a
    number through the first map whose source interval contains it. The almanac text
    is read block by block with a line cursor. */
module Almanac {
  import opened Wrappers
  import opened Text
  import opened StringManipulations

  /** One line of a map block, stored as its source interval [start, end] and the
      offset added to numbers inside it. */
  datatype IntervalMap = IntervalMap(start: int, end: int, offset: int)

  /** The map written `dest src len`: it sends src..src+len-1 to dest..dest+len-1. */
  function MapFromRanges(dest: int, src: int, len: int): (m: IntervalMap)
    ensures m.start == src && m.end - m.start + 1 == len
    ensures m.start + m.offset == dest
  {
    IntervalMap(src, src + len - 1, dest - src)
  }

  /** `Map(tuple)`: the first three numbers are used; fewer is an IndexError. */
  function MapFromNumbers(xs: seq<int>): (r: Result<IntervalMap>)
    ensures r.Success? <==> |xs| >= 3
    ensures r.Success? ==> r.value == MapFromRanges(xs[0], xs[1], xs[2])
  {
    if |xs| < 3 then Failure(IndexOutOfRange) else Success(MapFromRanges(xs[0], xs[1], xs[2]))
  }

  predicate IsWithinMapping(m: IntervalMap, source: int)
  {
    m.start <= source <= m.end
  }

  function DestinationAssumingValid(m: IntervalMap, source: int): int
  {
    source + m.offset
  }

  /** A map built from `dest src len` contains exactly src..src+len-1 and sends that
      interval onto dest..dest+len-1, keeping each number's distance from the start. */
  lemma MapSendsSourceToDestination(dest: int, src: int, len: int, s: int)
    ensures IsWithinMapping(MapFromRanges(dest, src, len), s) <==> src <= s < src + len
    ensures IsWithinMapping(MapFromRanges(dest, src, len), s) ==>
              var d := DestinationAssumingValid(MapFromRanges(dest, src, len), s);
              dest <= d <= dest + len - 1 && d - dest == s - src
  {
  }

  /** Index of the first map containing `s`, or `|maps|`. */
  function FirstContaining(maps: seq<IntervalMap>, s: int): (k: nat)
    ensures k <= |maps|
    ensures k < |maps| ==> IsWithinMapping(maps[k], s)
    ensures forall j :: 0 <= j < k ==> !IsWithinMapping(maps[j], s)
  {
    if |maps| == 0 then 0
    else if IsWithinMapping(maps[0], s) then 0
    else 1 + FirstContaining(maps[1..], s)
  }

  /** Where one stage sends `s`: through the first containing map, or unchanged. */
  function Image(maps: seq<IntervalMap>, s: int): int
  {
    var k := FirstContaining(maps, s);
    if k < |maps| then DestinationAssumingValid(maps[k], s) else s
  }

  /** One stage applied to every seed. */
  function Remap(seeds: seq<int>, maps: seq<IntervalMap>): (r: seq<int>)
    ensures |r| == |seeds|
    ensures forall i :: 0 <= i < |seeds| ==> r[i] == Image(maps, seeds[i])
  {
    seq(|seeds|, i requires 0 <= i < |seeds| => Image(maps, seeds[i]))
  }

  /** `destination`: each seed is replaced by its image under the first map that
      contains it; a seed no map contains is kept. */
  method Destination(seeds: seq<int>, maps: seq<IntervalMap>) returns (next: seq<int>)
    ensures |next| == |seeds|
    ensures forall i, k :: 0 <= i < |seeds| && 0 <= k < |maps| && IsWithinMapping(maps[k], seeds[i])
              && (forall j :: 0 <= j < k ==> !IsWithinMapping(maps[j], seeds[i]))
              ==> next[i] == seeds[i] + maps[k].offset
    ensures forall i :: 0 <= i < |seeds| && (forall k :: 0 <= k < |maps| ==> !IsWithinMapping(maps[k], seeds[i]))
              ==> next[i] == seeds[i]
    ensures next == Remap(seeds, maps)
  {
    next := seeds;
    var i := 0;
    while i < |seeds|
      invariant 0 <= i <= |seeds|
      invariant |next| == |seeds|
      invariant forall t :: 0 <= t < i ==> next[t] == Image(maps, seeds[t])
      invariant forall t :: i <= t < |seeds| ==> next[t] == seeds[t]
    {
      var k := 0;
      while k < |maps|
        invariant 0 <= k <= |maps|
        invariant forall j :: 0 <= j < k ==> !IsWithinMapping(maps[j], seeds[i])
      {
        if IsWithinMapping(maps[k], seeds[i]) {
          break;
        }
        k := k + 1;
      }
      assert k == FirstContaining(maps, seeds[i]);
      if k < |maps| {
        next := next[i := DestinationAssumingValid(maps[k], seeds[i])];
      }
      i := i + 1;
    }
  }

  /** The seeds after every stage, stages applied in order. */
  function Pipeline(seeds: seq<int>, stages: seq<seq<IntervalMap>>): (r: seq<int>)
    ensures |r| == |seeds|
  {
    if |stages| == 0 then seeds
    else Remap(Pipeline(seeds, stages[..|stages| - 1]), stages[|stages| - 1])
  }

  /** `min(xs)`. */
  function MinOf(xs: seq<int>): (m: int)
    requires |xs| > 0
    ensures m in xs
    ensures forall x :: x in xs ==> m <= x
  {
    if |xs| == 1 then xs[0]
    else
      var rest := MinOf(xs[1..]);
      assert forall x :: x in xs ==> x == xs[0] || x in xs[1..];
      if xs[0] <= rest then xs[0] else rest
  }

  /** `min(xs)` as a scan; `min` of an empty list is a ValueError. */
  method Minimum(xs: seq<int>) returns (r: Result<int>)
    ensures r.Success? <==> |xs| > 0
    ensures r.Failure? ==> r.error == EmptySequence
    ensures r.Success? ==> r.value in xs && forall x :: x in xs ==> r.value <= x
  {
    if |xs| == 0 {
      return Failure(EmptySequence);
    }
    var m := xs[0];
    var j := 1;
    while j < |xs|
      invariant 1 <= j <= |xs|
      invariant m in xs[..j]
      invariant forall t :: 0 <= t < j ==> m <= xs[t]
    {
      if xs[j] < m {
        m := xs[j];
      }
      j := j + 1;
    }
    assert xs[..|xs|] == xs;
    r := Success(m);
  }

  /** `lowest_location`: every stage is applied in order to a copy of the seeds, then
      the least location is returned. */
  method LowestLocation(seeds: seq<int>, stages: seq<seq<IntervalMap>>) returns (r: Result<int>)
    ensures r.Success? <==> |seeds| > 0
    ensures r.Failure? ==> r.error == EmptySequence
    ensures r.Success? ==> r.value in Pipeline(seeds, stages)
    ensures r.Success? ==> forall x :: x in Pipeline(seeds, stages) ==> r.value <= x
  {
    var current := seeds;
    var i := 0;
    while i < |stages|
      invariant 0 <= i <= |stages|
      invariant current == Pipeline(seeds, stages[..i])
    {
      assert stages[..i + 1][..i] == stages[..i];
      current := Destination(current, stages[i]);
      i := i + 1;
    }
    assert stages[..|stages|] == stages;
    r := Minimum(current);
  }

  // ----- FarmingDataReader over an in-memory sequence of lines -----

  /** The lines of the almanac and the index of the next line to read. */
  datatype Reader = Reader(lines: seq<string>, cursor: nat)

  /** The text `parse_seed_numbers` reads: the lines from the cursor, as many as
      precede the first blank line, joined without separator. */
  function SeedsPhrase(rd: Reader, blank: nat): string
  {
    Concat(Slice(rd.lines, rd.cursor, rd.cursor + blank))
  }

  /** `parse_seed_numbers`: the lines before the first blank line are joined, the
      `seeds:` label's six characters are dropped and the rest is read as integers; the
      cursor moves just past the blank line. With no blank line the phrase stays None
      and slicing it is a TypeError. */
  function ParseSeedNumbers(rd: Reader): (r: Result<(seq<int>, Reader)>)
    ensures "" !in rd.lines ==> r == Failure(WrongType)
    ensures "" in rd.lines ==> var phrase := SeedsPhrase(rd, IndexOf(rd.lines, ""));
                               r.Success? <==> ParseInts(Slice(phrase, 6, |phrase|)).Success?
    ensures r.Success? ==> r.value.1 == rd.(cursor := IndexOf(rd.lines, "") + 1)
    ensures r.Success? ==> var phrase := SeedsPhrase(rd, IndexOf(rd.lines, ""));
                           ParseInts(Slice(phrase, 6, |phrase|)) == Success(r.value.0)
  {
    var b := IndexOf(rd.lines, "");
    if b == |rd.lines| then Failure(WrongType)
    else
      var phrase := SeedsPhrase(rd, b);
      var seeds := ParseInts(Slice(phrase, 6, |phrase|));
      if seeds.Failure? then Failure(seeds.error) else Success((seeds.value, rd.(cursor := b + 1)))
  }

  /** The seeds line written as `seeds:` and the numbers separated by single spaces,
      then a blank line, reads back as the numbers, and the cursor lands on the line
      after the blank one. */
  lemma SeedsRoundTrip(xs: seq<int>, rest: seq<string>)
    ensures var lines := ["seeds: " + Join(Spell(xs), ' '), ""] + rest;
            ParseSeedNumbers(Reader(lines, 0)) == Success((xs, Reader(lines, 2)))
  {
    var header := "seeds: " + Join(Spell(xs), ' ');
    var lines := [header, ""] + rest;
    SeedsLineFound(header, rest);
    SeedsLineNumbers(xs);
  }

  /** The seeds line is the whole phrase when a blank line follows it. */
  lemma SeedsLineFound(header: string, rest: seq<string>)
    requires header != ""
    ensures var lines := [header, ""] + rest;
            IndexOf(lines, "") == 1 && SeedsPhrase(Reader(lines, 0), 1) == header
  {
    assert [header, ""] + rest == [header] + [""] + rest;
    IndexOfAfter([header], "", rest);
    assert Slice([header, ""] + rest, 0, 1) == [header];
  }

  /** Dropping the six characters of `seeds:` leaves a space and the numbers. */
  lemma SeedsLineNumbers(xs: seq<int>)
    ensures var header := "seeds: " + Join(Spell(xs), ' ');
            ParseInts(Slice(header, 6, |header|)) == Success(xs)
  {
    var numbers := Join(Spell(xs), ' ');
    assert "seeds: " + numbers == "seeds:" + (" " + numbers);
    SliceAfterPrefix("seeds:", " " + numbers);
    ParseIntsAfterSpace(numbers);
    ParseIntsRoundTrip(xs);
  }

  /** One map line: every space-separated piece through `int()` (an empty piece is a
      ValueError), then `Map` of the numbers. */
  function MapFromLine(line: string): (r: Result<IntervalMap>)
    ensures var xs := ParseAll(Split(line, ' '));
            r.Success? <==> xs.Success? && |xs.value| >= 3
    ensures var xs := ParseAll(Split(line, ' '));
            xs.Failure? ==> r == Failure(xs.error)
    ensures var xs := ParseAll(Split(line, ' '));
            xs.Success? ==> r == MapFromNumbers(xs.value)
  {
    match ParseAll(Split(line, ' '))
    case Failure(e) => Failure(e)
    case Success(xs) => MapFromNumbers(xs)
  }

  /** The line `dest src len` written with single spaces reads back as its map. */
  lemma MapLineRoundTrip(dest: int, src: int, len: int)
    ensures MapFromLine(Join(Spell([dest, src, len]), ' ')) == Success(MapFromRanges(dest, src, len))
  {
    SplitSpelled([dest, src, len]);
    ParseAllSpelled([dest, src, len]);
  }

  function MapsFromLines(lines: seq<string>): Result<seq<IntervalMap>>
  {
    MapResult(MapFromLine, lines)
  }

  /** Where the block starting at `c` ends: the first blank line at or after `c` that
      comes before the last line, or the end of the input. */
  function BlockEnd(lines: seq<string>, c: nat): (e: nat)
    requires c < |lines|
    ensures c <= e <= |lines|
    ensures e < |lines| ==> e < |lines| - 1 && lines[e] == ""
    ensures forall j :: c <= j < e && j < |lines| - 1 ==> lines[j] != ""
  {
    var b := IndexOf(lines[c..], "");
    assert forall j :: c <= j < c + b ==> lines[j] == lines[c..][j - c];
    if b < |lines| - 1 - c then c + b else |lines|
  }

  /** `parse_next_source_to_destination_map`: the line at the cursor is the block's
      header and is skipped; the maps are read from the lines up to the next blank line,
      or up to the end of the input when the block is the last one (the check for the
      last line comes first). After a blank line the cursor moves just past it; after
      the last block it moves only past the header. A cursor at or beyond the end finds
      no block: the phrase stays None and iterating it is a TypeError. */
  function ParseNextSourceToDestinationMap(rd: Reader): (r: Result<(seq<IntervalMap>, Reader)>)
    ensures rd.cursor >= |rd.lines| ==> r == Failure(WrongType)
    ensures r.Success? ==> r.value.1.lines == rd.lines && r.value.1.cursor > rd.cursor
  {
    if rd.cursor >= |rd.lines| then Failure(WrongType)
    else
      var (phrase, next) := NextPhrase(rd.lines, rd.cursor);
      var maps :- MapsFromLines(phrase);
      Success((maps, rd.(cursor := next)))
  }

  /** The loop of `parse_next_source_to_destination_map`: the lines it hands to `Map`
      and where it leaves the cursor. */
  function NextPhrase(lines: seq<string>, c: nat): (r: (seq<string>, nat))
    requires c < |lines|
    ensures r.1 > c
  {
    var n := |lines|;
    var b := IndexOf(lines[c..], "");
    if b < n - 1 - c then
      // a blank line at c + b: `lines(i - 1)` once the cursor has moved past the header
      (Slice(lines, c + 1, c + 1 + (b - 1)), c + 1 + b)
    else
      // the last line is reached first: `lines(i + 1)` with i = n - 1 - c
      (Slice(lines, c + 1, c + 1 + (n - 1 - c) + 1), c + 1)
  }

  /** The lines of the block whose header is at `c`: those strictly between the
      header and the block's end. */
  function BlockLines(lines: seq<string>, c: nat): seq<string>
    requires c < |lines|
  {
    var e := BlockEnd(lines, c);
    if c + 1 <= e then lines[c + 1..e] else []
  }

  /** The block read at cursor `c` is the lines strictly between the header and the
      block's end; the cursor lands just past the blank line, or just past the header
      when the block runs to the end of the input. */
  lemma NextMapBlock(rd: Reader)
    requires rd.cursor < |rd.lines|
    ensures var e := BlockEnd(rd.lines, rd.cursor);
            var next := if e < |rd.lines| then e + 1 else rd.cursor + 1;
            var m := MapsFromLines(BlockLines(rd.lines, rd.cursor));
            ParseNextSourceToDestinationMap(rd)
              == if m.Failure? then Failure(m.error) else Success((m.value, rd.(cursor := next)))
  {
    NextPhraseIsBlock(rd.lines, rd.cursor);
  }

  /** The phrase is the block's lines and the cursor moves past the blank line, or
      only past the header when the block runs to the end. */
  lemma NextPhraseIsBlock(lines: seq<string>, c: nat)
    requires c < |lines|
    ensures var e := BlockEnd(lines, c);
            NextPhrase(lines, c) == (BlockLines(lines, c), if e < |lines| then e + 1 else c + 1)
  {
    var b := IndexOf(lines[c..], "");
    if b < |lines| - 1 - c {
      BlankEndsBlock(lines, c, b);
    } else {
      LastLineEndsBlock(lines, c, b);
    }
  }

  /** A blank line before the last line ends the block: the lines between the header
      and the blank line are the block's, and the cursor moves past the blank line. */
  lemma BlankEndsBlock(lines: seq<string>, c: nat, b: nat)
    requires c < |lines| && b == IndexOf(lines[c..], "") && b < |lines| - 1 - c
    ensures BlockEnd(lines, c) < |lines|
    ensures NextPhrase(lines, c) == (BlockLines(lines, c), BlockEnd(lines, c) + 1)
  {
    assert BlockEnd(lines, c) == c + b;
    assert NextPhrase(lines, c).1 == c + b + 1;
    assert NextPhrase(lines, c).0 == Slice(lines, c + 1, c + b);
    assert BlockLines(lines, c) == Slice(lines, c + 1, c + b);
  }

  /** Without a blank line before the last line the block runs to the end and the
      cursor moves only past the header. */
  lemma LastLineEndsBlock(lines: seq<string>, c: nat, b: nat)
    requires c < |lines| && b == IndexOf(lines[c..], "") && b >= |lines| - 1 - c
    ensures BlockEnd(lines, c) == |lines|
    ensures NextPhrase(lines, c) == (BlockLines(lines, c), c + 1)
  {
    assert BlockEnd(lines, c) == |lines|;
    assert NextPhrase(lines, c) == (Slice(lines, c + 1, |lines| + 1), c + 1);
    assert Slice(lines, c + 1, |lines| + 1) == lines[c + 1..];
  }

  /** Reads `count` map blocks in turn. */
  function ParseStages(rd: Reader, count: nat): (r: Result<(seq<seq<IntervalMap>>, Reader)>)
    ensures count > 0 && rd.cursor >= |rd.lines| ==> r == Failure(WrongType)
    ensures r.Success? ==> |r.value.0| == count && r.value.1.lines == rd.lines
    decreases count
  {
    if count == 0 then Success(([], rd))
    else
      match ParseNextSourceToDestinationMap(rd)
      case Failure(e) => Failure(e)
      case Success((maps, rd1)) =>
        match ParseStages(rd1, count - 1)
        case Failure(e) => Failure(e)
        case Success((rest, rd2)) => Success(([maps] + rest, rd2))
  }

  /** The first stage read is the maps of the block whose header is at the cursor, and
      the others are read from where that block leaves the cursor; a bad map line in
      the first block fails the whole read. */
  lemma ParseStagesStep(rd: Reader, count: nat)
    requires count > 0 && rd.cursor < |rd.lines|
    ensures var e := BlockEnd(rd.lines, rd.cursor);
            var next := if e < |rd.lines| then e + 1 else rd.cursor + 1;
            var m := MapsFromLines(BlockLines(rd.lines, rd.cursor));
            var rest := ParseStages(rd.(cursor := next), count - 1);
            ParseStages(rd, count)
              == if m.Failure? then Failure(m.error)
                 else if rest.Failure? then Failure(rest.error)
                 else Success(([m.value] + rest.value.0, rest.value.1))
  {
    NextMapBlock(rd);
  }

  /** `lowest_location_from_reader`: the seeds, then seven map blocks, then the least
      location; the first failure met is the result. */
  function LowestLocationFromLines(lines: seq<string>): (r: Result<int>)
    ensures var p := ParseSeedNumbers(Reader(lines, 0));
            p.Failure? ==> r == Failure(p.error)
    ensures var p := ParseSeedNumbers(Reader(lines, 0));
            p.Success? && ParseStages(p.value.1, 7).Failure? ==> r == Failure(ParseStages(p.value.1, 7).error)
    ensures var p := ParseSeedNumbers(Reader(lines, 0));
            p.Success? && ParseStages(p.value.1, 7).Success? && |p.value.0| == 0 ==> r == Failure(EmptySequence)
    ensures var p := ParseSeedNumbers(Reader(lines, 0));
            p.Success? && ParseStages(p.value.1, 7).Success? && |p.value.0| > 0 ==>
              var locations := Pipeline(p.value.0, ParseStages(p.value.1, 7).value.0);
              r.Success? && r.value in locations && forall x :: x in locations ==> r.value <= x
  {
    var parsed := ParseSeedNumbers(Reader(lines, 0));
    if parsed.Failure? then Failure(parsed.error)
    else
      var read := ParseStages(parsed.value.1, 7);
      if read.Failure? then Failure(read.error)
      else if |parsed.value.0| == 0 then Failure(EmptySequence)
      else Success(MinOf(Pipeline(parsed.value.0, read.value.0)))
  }
}
