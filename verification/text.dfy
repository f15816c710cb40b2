/** The handful of Python built-ins the scripts lean on, over `seq`: slicing with
    negative and out-of-range bounds, `str.split` / `str.join` with an explicit
    separator, `''.join`, and `int()` restricted to decimal literals. */
module Text {
  import opened Wrappers

  /** Python's normalisation of a slice bound: a negative bound counts from the end,
      then the bound is clamped into [0, len]. */
  function SliceBound(i: int, len: nat): (k: nat)
    ensures k <= len
    ensures 0 <= i <= len ==> k == i
    ensures -(len as int) <= i < 0 ==> k == len + i
    ensures i < -(len as int) ==> k == 0
    ensures len < i ==> k == len
  {
    var j := if i < 0 then len + i else i;
    if j < 0 then 0 else if j > len then len else j
  }

  /** `s[i:j]` (step 1). Bounds never fail; a reversed range is empty. */
  function Slice<T>(s: seq<T>, i: int, j: int): (r: seq<T>)
    ensures |r| <= |s|
    ensures 0 <= i <= j <= |s| ==> r == s[i..j]
    ensures 0 <= j <= i ==> r == []
    ensures 0 <= i < |s| && j == -1 ==> r == s[i..|s| - 1]
    ensures 0 <= i <= |s| <= j ==> r == s[i..]
  {
    var a := SliceBound(i, |s|);
    var b := SliceBound(j, |s|);
    if a <= b then s[a..b] else []
  }

  /** Index of the first occurrence of `c`, or `|s|` when there is none. */
  function IndexOf<T(==)>(s: seq<T>, c: T): (k: nat)
    ensures k <= |s|
    ensures k < |s| ==> s[k] == c
    ensures forall i :: 0 <= i < k ==> s[i] != c
    ensures k == |s| <==> c !in s
  {
    if |s| == 0 then 0
    else if s[0] == c then 0
    else 1 + IndexOf(s[1..], c)
  }

  /** Slicing from the end of a prefix to the end leaves what follows it. */
  lemma SliceAfterPrefix<T>(pre: seq<T>, rest: seq<T>)
    ensures Slice(pre + rest, |pre|, |pre + rest|) == rest
  {
    assert (pre + rest)[|pre|..] == rest;
  }

  /** The first `c` is the one right after a prefix free of `c`. */
  lemma IndexOfAfter<T>(pre: seq<T>, c: T, tail: seq<T>)
    requires c !in pre
    ensures IndexOf(pre + [c] + tail, c) == |pre|
  {
    var s := pre + [c] + tail;
    assert s[|pre|] == c;
    assert forall i :: 0 <= i < |pre| ==> s[i] == pre[i];
  }

  /** `sep.join(pieces)`. */
  function Join(pieces: seq<string>, sep: char): string
  {
    if |pieces| == 0 then ""
    else if |pieces| == 1 then pieces[0]
    else pieces[0] + [sep] + Join(pieces[1..], sep)
  }

  /** `''.join(pieces)`. */
  function Concat(pieces: seq<string>): (r: string)
    ensures |pieces| == 1 ==> r == pieces[0]
  {
    if |pieces| == 0 then "" else pieces[0] + Concat(pieces[1..])
  }

  predicate NoSeparator(pieces: seq<string>, sep: char)
  {
    forall i :: 0 <= i < |pieces| ==> sep !in pieces[i]
  }

  lemma NoSeparatorSnoc(pieces: seq<string>, last: string, sep: char)
    requires NoSeparator(pieces, sep) && sep !in last
    ensures NoSeparator(pieces + [last], sep)
  {
    var all := pieces + [last];
    forall i | 0 <= i < |all| ensures sep !in all[i] {
      if i < |pieces| {
        assert all[i] == pieces[i];
      }
    }
  }

  /** `s.split(sep)` with an explicit one-character separator: every occurrence
      splits, so neighbouring separators produce empty pieces and `""` splits to `[""]`. */
  function Split(s: string, sep: char): (pieces: seq<string>)
    ensures |pieces| >= 1
    ensures NoSeparator(pieces, sep)
    ensures Join(pieces, sep) == s
    ensures |pieces| == 1 <==> sep !in s
    decreases |s|
  {
    var k := IndexOf(s, sep);
    if k == |s| then [s]
    else
      var tail := Split(s[k + 1..], sep);
      SplitAtFirst(s, sep, k, tail);
      [s[..k]] + tail
  }

  /** The piece before the first separator, put in front of the pieces of the text
      after it, keeps what `Split` promises. */
  lemma SplitAtFirst(s: string, sep: char, k: nat, tail: seq<string>)
    requires k < |s| && k == IndexOf(s, sep)
    requires |tail| >= 1 && NoSeparator(tail, sep) && Join(tail, sep) == s[k + 1..]
    ensures var pieces := [s[..k]] + tail;
            |pieces| >= 2 && NoSeparator(pieces, sep) && Join(pieces, sep) == s && sep in s
  {
    var pieces := [s[..k]] + tail;
    assert sep !in s[..k];
    assert pieces[1..] == tail;
    assert s == s[..k] + [sep] + s[k + 1..];
    forall i | 0 <= i < |pieces| ensures sep !in pieces[i] {
      if i > 0 {
        assert pieces[i] == tail[i - 1];
      }
    }
  }

  /** Splitting undoes joining when no piece holds the separator. */
  lemma {:induction false} SplitJoin(pieces: seq<string>, sep: char)
    requires |pieces| >= 1
    requires NoSeparator(pieces, sep)
    ensures Split(Join(pieces, sep), sep) == pieces
    decreases |pieces|
  {
    if |pieces| == 1 {
      assert sep !in pieces[0];
    } else {
      var s := Join(pieces, sep);
      var rest := Join(pieces[1..], sep);
      assert s == pieces[0] + [sep] + rest;
      var k := IndexOf(s, sep);
      assert s[|pieces[0]|] == sep;
      assert forall i :: 0 <= i < |pieces[0]| ==> s[i] == pieces[0][i];
      assert k == |pieces[0]|;
      assert s[..k] == pieces[0];
      assert s[k + 1..] == rest;
      SplitJoin(pieces[1..], sep);
      assert Split(s, sep) == [pieces[0]] + Split(rest, sep);
    }
  }

  lemma {:induction false} JoinAppend(a: seq<string>, b: seq<string>, sep: char)
    requires |a| >= 1 && |b| >= 1
    ensures Join(a + b, sep) == Join(a, sep) + [sep] + Join(b, sep)
    decreases |a|
  {
    if |a| == 1 {
      assert (a + b)[1..] == b;
    } else {
      assert (a + b)[1..] == a[1..] + b;
      JoinAppend(a[1..], b, sep);
    }
  }

  /** A separator in the text splits it into the pieces of either side. */
  lemma SplitAround(a: string, b: string, sep: char)
    ensures Split(a + [sep] + b, sep) == Split(a, sep) + Split(b, sep)
  {
    var pa := Split(a, sep);
    var pb := Split(b, sep);
    JoinAppend(pa, pb, sep);
    assert NoSeparator(pa + pb, sep) by {
      forall i | 0 <= i < |pa + pb|
        ensures sep !in (pa + pb)[i]
      {
        if i < |pa| { assert (pa + pb)[i] == pa[i]; } else { assert (pa + pb)[i] == pb[i - |pa|]; }
      }
    }
    SplitJoin(pa + pb, sep);
  }

  // ----- decimal digits and int() -----

  predicate IsDigit(c: char)
  {
    '0' <= c <= '9'
  }

  predicate AllDigits(s: string)
  {
    forall i :: 0 <= i < |s| ==> IsDigit(s[i])
  }

  function DigitValue(c: char): (d: nat)
    requires IsDigit(c)
    ensures d < 10
  {
    (c as int) - ('0' as int)
  }

  function DigitChar(d: nat): (c: char)
    requires d < 10
    ensures IsDigit(c) && DigitValue(c) == d
  {
    (('0' as int) + d) as char
  }

  /** The value of a string of decimal digits, most significant first. */
  function DigitsValue(s: string): nat
    requires AllDigits(s)
    decreases |s|
  {
    if |s| == 0 then 0 else 10 * DigitsValue(s[..|s| - 1]) + DigitValue(s[|s| - 1])
  }

  /** Decimal spelling of a natural number (no leading zeros). */
  function NatToString(n: nat): (s: string)
    ensures |s| >= 1 && AllDigits(s)
    ensures DigitsValue(s) == n
    decreases n
  {
    if n < 10 then [DigitChar(n)]
    else
      var s := NatToString(n / 10) + [DigitChar(n % 10)];
      assert s[..|s| - 1] == NatToString(n / 10);
      s
  }

  /** Decimal spelling of an integer: `str(i)`. */
  function IntToString(i: int): (s: string)
    ensures |s| >= 1
    ensures forall k :: 0 <= k < |s| ==> IsDigit(s[k]) || s[k] == '-'
  {
    if i < 0 then "-" + NatToString(-i) else NatToString(i)
  }

  /** The literals `int()` is asked to read: an optional sign, then at least one digit. */
  predicate IsDecimalLiteral(s: string)
  {
    (|s| >= 1 && AllDigits(s)) || (|s| >= 2 && (s[0] == '-' || s[0] == '+') && AllDigits(s[1..]))
  }

  /** `int(s)` for decimal literals; anything else is a ValueError. */
  function ParseInt(s: string): (r: Result<int>)
    ensures r.Success? <==> IsDecimalLiteral(s)
    ensures r.Failure? ==> r.error == NotAnInteger
  {
    if |s| >= 2 && (s[0] == '-' || s[0] == '+') && AllDigits(s[1..]) then
      Success(if s[0] == '-' then -(DigitsValue(s[1..]) as int) else DigitsValue(s[1..]))
    else if |s| >= 1 && AllDigits(s) then Success(DigitsValue(s))
    else Failure(NotAnInteger)
  }

  /** `int(str(i)) == i`. */
  lemma ParseIntToString(i: int)
    ensures ParseInt(IntToString(i)) == Success(i)
  {
    if i < 0 {
      var t := NatToString(-i);
      assert ("-" + t)[1..] == t;
    } else {
      var t := NatToString(i);
      assert IsDigit(t[0]);
    }
  }
}
