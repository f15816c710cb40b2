/** Boxes of integer points: one closed interval `(lo, hi)` per dimension. A box is
    cut along one dimension at a threshold, and a function is summed over its
    points one dimension at a time; the lemmas say that cutting keeps the sum, that
    the sum only looks at the box's points, and that a constant sums to the volume. */
module Boxes {

  type Interval = (int, int)

  type Box = seq<Interval>

  /** The number of integers in `[lo, hi]`; a reversed interval is empty. */
  function Width(iv: Interval): (w: nat)
    ensures iv.0 <= iv.1 ==> w == iv.1 - iv.0 + 1
    ensures iv.1 < iv.0 ==> w == 0
  {
    if iv.1 < iv.0 then 0 else iv.1 - iv.0 + 1
  }

  /** The number of points in a box. */
  function Volume(box: Box): nat
  {
    if |box| == 0 then 1 else Width(box[0]) * Volume(box[1..])
  }

  /** The part of the box whose `d`-th coordinate is below `c`. */
  function Below(box: Box, d: nat, c: int): (r: Box)
    requires d < |box|
    ensures |r| == |box| && r[d] == (box[d].0, if box[d].1 < c - 1 then box[d].1 else c - 1)
    ensures forall i :: 0 <= i < |box| && i != d ==> r[i] == box[i]
  {
    box[d := (box[d].0, if box[d].1 < c - 1 then box[d].1 else c - 1)]
  }

  /** The part of the box whose `d`-th coordinate is at least `c`. */
  function AtLeast(box: Box, d: nat, c: int): (r: Box)
    requires d < |box|
    ensures |r| == |box| && r[d] == (if box[d].0 < c then c else box[d].0, box[d].1)
    ensures forall i :: 0 <= i < |box| && i != d ==> r[i] == box[i]
  {
    box[d := (if box[d].0 < c then c else box[d].0, box[d].1)]
  }

  /** Raising the low end twice keeps the higher bound. */
  lemma AtLeastTwice(box: Box, d: nat, c: int)
    requires d < |box|
    ensures AtLeast(AtLeast(box, d, c), d, c + 1) == AtLeast(box, d, c + 1)
  {
  }

  /** `p` is a point of the box once the coordinates in `prefix` are fixed. */
  predicate InBox(box: Box, prefix: seq<int>, p: seq<int>)
  {
    |p| == |prefix| + |box| && p[..|prefix|] == prefix
    && forall i :: 0 <= i < |box| ==> box[i].0 <= p[|prefix| + i] <= box[i].1
  }

  /** The sum of `f` over the points of the box, each point being `prefix` followed by
      one coordinate per dimension: the first coordinate runs from its low end up. */
  function SumOver(box: Box, prefix: seq<int>, f: seq<int> -> int): int
    decreases |box|, if |box| == 0 then 0 else Width(box[0])
  {
    if |box| == 0 then f(prefix)
    else if box[0].1 < box[0].0 then 0
    else SumOver(box[1..], prefix + [box[0].0], f) + SumOver([(box[0].0 + 1, box[0].1)] + box[1..], prefix, f)
  }

  /** Points of the box split into the first coordinate's low end and the rest. */
  lemma InBoxFirst(box: Box, prefix: seq<int>, p: seq<int>)
    requires |box| >= 1 && box[0].0 <= box[0].1
    ensures InBox(box[1..], prefix + [box[0].0], p) ==> InBox(box, prefix, p)
    ensures InBox([(box[0].0 + 1, box[0].1)] + box[1..], prefix, p) ==> InBox(box, prefix, p)
  {
    var n := |prefix|;
    if InBox(box[1..], prefix + [box[0].0], p) {
      assert p[..n] == p[..n + 1][..n];
      forall i | 0 <= i < |box|
        ensures box[i].0 <= p[n + i] <= box[i].1
      {
        if i == 0 {
          assert p[n] == p[..n + 1][n];
        } else {
          assert box[i] == box[1..][i - 1];
          assert p[n + i] == p[|prefix + [box[0].0]| + (i - 1)];
        }
      }
    }
    var rest := [(box[0].0 + 1, box[0].1)] + box[1..];
    if InBox(rest, prefix, p) {
      forall i | 0 <= i < |box|
        ensures box[i].0 <= p[n + i] <= box[i].1
      {
        if i > 0 {
          assert box[i] == rest[i];
        } else {
          assert rest[0].0 <= p[n] <= rest[0].1;
        }
      }
    }
  }

  /** The sum depends only on the values at the box's points. */
  lemma {:induction false} SumOverCongruent(box: Box, prefix: seq<int>, f: seq<int> -> int, g: seq<int> -> int)
    requires forall p :: InBox(box, prefix, p) ==> f(p) == g(p)
    ensures SumOver(box, prefix, f) == SumOver(box, prefix, g)
    decreases |box|, if |box| == 0 then 0 else Width(box[0])
  {
    if |box| == 0 {
      assert prefix[..|prefix|] == prefix;
      assert InBox(box, prefix, prefix);
    } else if box[0].0 <= box[0].1 {
      forall p | InBox(box[1..], prefix + [box[0].0], p) || InBox([(box[0].0 + 1, box[0].1)] + box[1..], prefix, p)
        ensures f(p) == g(p)
      {
        InBoxFirst(box, prefix, p);
      }
      SumOverCongruent(box[1..], prefix + [box[0].0], f, g);
      SumOverCongruent([(box[0].0 + 1, box[0].1)] + box[1..], prefix, f, g);
    }
  }

  lemma Distribute(k: int, w: int, v: int)
    ensures k * v + k * (w * v) == k * ((w + 1) * v)
  {
    assert (w + 1) * v == w * v + v;
  }

  /** A function that is `k` at every point sums to `k` times the volume. */
  lemma {:induction false} SumOverConstant(box: Box, prefix: seq<int>, f: seq<int> -> int, k: int)
    requires forall p :: InBox(box, prefix, p) ==> f(p) == k
    ensures SumOver(box, prefix, f) == k * Volume(box)
    decreases |box|, if |box| == 0 then 0 else Width(box[0])
  {
    if |box| == 0 {
      assert prefix[..|prefix|] == prefix;
      assert InBox(box, prefix, prefix);
    } else if box[0].0 <= box[0].1 {
      var lo := box[0].0;
      var hi := box[0].1;
      var rest := [(lo + 1, hi)] + box[1..];
      forall p | InBox(box[1..], prefix + [lo], p) || InBox(rest, prefix, p)
        ensures f(p) == k
      {
        InBoxFirst(box, prefix, p);
      }
      SumOverConstant(box[1..], prefix + [lo], f, k);
      SumOverConstant(rest, prefix, f, k);
      var v := Volume(box[1..]);
      assert rest[1..] == box[1..];
      assert Volume(rest) == (hi - lo) * v;
      assert Volume(box) == (hi - lo + 1) * v;
      Distribute(k, hi - lo, v);
    } else {
      assert Volume(box) == 0;
    }
  }

  /** Cutting the first dimension at `c` splits the sum in two. */
  lemma {:induction false} SumOverSplitFirst(box: Box, prefix: seq<int>, f: seq<int> -> int, c: int)
    requires |box| >= 1
    ensures SumOver(box, prefix, f) == SumOver(Below(box, 0, c), prefix, f) + SumOver(AtLeast(box, 0, c), prefix, f)
    decreases Width(box[0])
  {
    var lo := box[0].0;
    var hi := box[0].1;
    var below := Below(box, 0, c);
    var above := AtLeast(box, 0, c);
    assert below[1..] == box[1..] && above[1..] == box[1..];
    if hi < lo {
    } else if c <= lo {
      assert above == box;
    } else if hi < c {
      assert below == box;
    } else {
      var rest := [(lo + 1, hi)] + box[1..];
      SumOverSplitFirst(rest, prefix, f, c);
      assert Below(rest, 0, c)[1..] == box[1..];
      assert [(lo + 1, c - 1)] + box[1..] == Below(rest, 0, c);
      assert AtLeast(rest, 0, c) == above;
    }
  }

  /** Cutting any dimension at `c` splits the sum in two. */
  lemma {:induction false} SumOverSplit(box: Box, prefix: seq<int>, f: seq<int> -> int, d: nat, c: int)
    requires d < |box|
    ensures SumOver(box, prefix, f) == SumOver(Below(box, d, c), prefix, f) + SumOver(AtLeast(box, d, c), prefix, f)
    decreases |box|, Width(box[0])
  {
    if d == 0 {
      SumOverSplitFirst(box, prefix, f, c);
    } else if box[0].0 <= box[0].1 {
      var lo := box[0].0;
      var hi := box[0].1;
      var rest := [(lo + 1, hi)] + box[1..];
      CutBehindFirst(box, d, c);
      SumOverSplit(box[1..], prefix + [lo], f, d - 1, c);
      SumOverSplit(rest, prefix, f, d, c);
    } else {
      assert Below(box, d, c)[0] == box[0] && AtLeast(box, d, c)[0] == box[0];
    }
  }

  /** Cutting a later dimension leaves the first interval alone and cuts the rest of
      the box, whether or not the first interval has lost its low end. */
  lemma CutBehindFirst(box: Box, d: nat, c: int)
    requires 0 < d < |box| && box[0].0 <= box[0].1
    ensures var below := Below(box, d, c);
            var above := AtLeast(box, d, c);
            var rest := [(box[0].0 + 1, box[0].1)] + box[1..];
            && below[0] == box[0] && above[0] == box[0]
            && below[1..] == Below(box[1..], d - 1, c)
            && above[1..] == AtLeast(box[1..], d - 1, c)
            && [(box[0].0 + 1, box[0].1)] + below[1..] == Below(rest, d, c)
            && [(box[0].0 + 1, box[0].1)] + above[1..] == AtLeast(rest, d, c)
  {
  }

  /** A function with values in {0, 1} sums to at least 0 and at most the volume. */
  lemma {:induction false} SumOverIndicator(box: Box, prefix: seq<int>, f: seq<int> -> int)
    requires forall p :: InBox(box, prefix, p) ==> 0 <= f(p) <= 1
    ensures 0 <= SumOver(box, prefix, f) <= Volume(box)
    decreases |box|, if |box| == 0 then 0 else Width(box[0])
  {
    if |box| == 0 {
      assert prefix[..|prefix|] == prefix;
      assert InBox(box, prefix, prefix);
    } else if box[0].0 <= box[0].1 {
      var lo := box[0].0;
      var hi := box[0].1;
      var rest := [(lo + 1, hi)] + box[1..];
      forall p | InBox(box[1..], prefix + [lo], p) || InBox(rest, prefix, p)
        ensures 0 <= f(p) <= 1
      {
        InBoxFirst(box, prefix, p);
      }
      SumOverIndicator(box[1..], prefix + [lo], f);
      SumOverIndicator(rest, prefix, f);
      var v := Volume(box[1..]);
      assert rest[1..] == box[1..];
      assert Volume(rest) == (hi - lo) * v;
      assert Volume(box) == (hi - lo + 1) * v;
      Distribute(1, hi - lo, v);
    }
  }
}
