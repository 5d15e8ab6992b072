/** A corrected `natural_cmp` that is a total order.

    When every zipped pair of segments ties, `natural_cmp` falls back to
    comparing the whole strings, even when one string has segments the
    other lacks. That lets leading zeros decide in one comparison and a
    later segment decide in another, and the three strings "01", "1a",
    "001b" then form a cycle (`Examples.NotTransitive`). The corrected
    comparator first puts the string with fewer segments first, as
    lexicographic order does with a proper prefix, and only then falls back
    to the whole strings. */
module CorrectedCompare {
  import opened Options
  import opened Orderings
  import opened Text
  import opened Segmenter
  import opened DigitCompare
  import opened NaturalCompare

  /** `natural_cmp` with the fallback corrected: when all zipped pairs tie,
      the shorter segmentation comes first, and only segmentations of
      equal length fall back to the whole strings. */
  function NaturalCmpCorrected(a: seq<char>, b: seq<char>): Ordering {
    var xs, ys := Segments(a), Segments(b);
    match FirstDifference(xs, ys)
    case Some(o) => o
    case None => Then(CmpInt(|xs|, |ys|), LexCmp(a, b))
  }

  /** Which side of the digits a segment falls on when compared with a
      segment of the other kind: text starting below '0', digit runs, text
      starting above '9'. */
  function Rank(x: Segment): int
    requires WellFormed(x)
  {
    if x.Digits? then 1 else if x.text[0] < '0' then 0 else 2
  }

  /** Segments of different ranks compare by rank alone. */
  lemma CompareSegmentsByRank(x: Segment, y: Segment)
    requires WellFormed(x) && WellFormed(y) && Rank(x) != Rank(y)
    ensures CompareSegments(x, y) == CmpInt(Rank(x), Rank(y))
  {
    assert IsDigit(x.text[0]) == x.Digits? && IsDigit(y.text[0]) == y.Digits?;
    LexCmpFirstCharacter(x.text, y.text);
  }

  /** The per-pair comparison is a total preorder: its outcomes chain. */
  lemma CompareSegmentsChains(x: Segment, y: Segment, z: Segment)
    requires WellFormed(x) && WellFormed(y) && WellFormed(z)
    ensures Chains(CompareSegments(x, y), CompareSegments(y, z), CompareSegments(x, z))
  {
    var rx, ry, rz := Rank(x), Rank(y), Rank(z);
    if rx == ry == rz {
      if x.Digits? {
        CmpDigitStrIsNumeric(x.text, y.text);
        CmpDigitStrIsNumeric(y.text, z.text);
        CmpDigitStrIsNumeric(x.text, z.text);
        CmpIntChains(NatValue(x.text), NatValue(y.text), NatValue(z.text));
      } else {
        LexCmpChains(x.text, y.text, z.text);
      }
    } else {
      if rx != ry { CompareSegmentsByRank(x, y); }
      if ry != rz { CompareSegmentsByRank(y, z); }
      if rx != rz { CompareSegmentsByRank(x, z); }
      CmpIntChains(rx, ry, rz);
    }
  }

  /** Segmentations in lexicographic order over `CompareSegments`, where a
      segmentation that runs out first is the smaller. */
  function SegmentsCmp(xs: seq<Segment>, ys: seq<Segment>): Ordering
    requires AllWellFormed(xs) && AllWellFormed(ys)
    decreases |xs|
  {
    if |xs| == 0 || |ys| == 0 then CmpInt(|xs|, |ys|)
    else Then(CompareSegments(xs[0], ys[0]), SegmentsCmp(xs[1..], ys[1..]))
  }

  /** `SegmentsCmp` is the first difference, or failing that the lengths. */
  lemma {:induction false} SegmentsCmpByFirstDifference(xs: seq<Segment>, ys: seq<Segment>)
    requires AllWellFormed(xs) && AllWellFormed(ys)
    ensures SegmentsCmp(xs, ys) == match FirstDifference(xs, ys)
                                   case Some(o) => o
                                   case None => CmpInt(|xs|, |ys|)
    decreases |xs|
  {
    if |xs| > 0 && |ys| > 0 {
      SegmentsCmpByFirstDifference(xs[1..], ys[1..]);
    }
  }

  /** `SegmentsCmp` is a total preorder on segmentations. */
  lemma {:induction false} SegmentsCmpChains(xs: seq<Segment>, ys: seq<Segment>, zs: seq<Segment>)
    requires AllWellFormed(xs) && AllWellFormed(ys) && AllWellFormed(zs)
    ensures Chains(SegmentsCmp(xs, ys), SegmentsCmp(ys, zs), SegmentsCmp(xs, zs))
    decreases |xs|
  {
    if |xs| == 0 || |ys| == 0 || |zs| == 0 {
      CmpIntChains(|xs|, |ys|, |zs|);
    } else {
      CompareSegmentsChains(xs[0], ys[0], zs[0]);
      SegmentsCmpChains(xs[1..], ys[1..], zs[1..]);
      ThenChains(CompareSegments(xs[0], ys[0]), CompareSegments(ys[0], zs[0]), CompareSegments(xs[0], zs[0]),
                 SegmentsCmp(xs[1..], ys[1..]), SegmentsCmp(ys[1..], zs[1..]), SegmentsCmp(xs[1..], zs[1..]));
    }
  }

  /** The corrected comparator breaks the ties of `SegmentsCmp` by whole
      strings. */
  lemma NaturalCmpCorrectedIsThen(a: seq<char>, b: seq<char>)
    ensures NaturalCmpCorrected(a, b) == Then(SegmentsCmp(Segments(a), Segments(b)), LexCmp(a, b))
  {
    SegmentsCmpByFirstDifference(Segments(a), Segments(b));
  }

  /** The corrected comparator is transitive; more precisely, its outcomes
      chain as those of a total order do. */
  lemma NaturalCmpCorrectedTransitive(a: seq<char>, b: seq<char>, c: seq<char>)
    ensures Chains(NaturalCmpCorrected(a, b), NaturalCmpCorrected(b, c), NaturalCmpCorrected(a, c))
    ensures NaturalCmpCorrected(a, b) == Less && NaturalCmpCorrected(b, c) == Less ==> NaturalCmpCorrected(a, c) == Less
  {
    var xs, ys, zs := Segments(a), Segments(b), Segments(c);
    NaturalCmpCorrectedIsThen(a, b);
    NaturalCmpCorrectedIsThen(b, c);
    NaturalCmpCorrectedIsThen(a, c);
    SegmentsCmpChains(xs, ys, zs);
    LexCmpChains(a, b, c);
    ThenChains(SegmentsCmp(xs, ys), SegmentsCmp(ys, zs), SegmentsCmp(xs, zs), LexCmp(a, b), LexCmp(b, c), LexCmp(a, c));
  }

  /** The corrected comparator reports Equal exactly for identical strings. */
  lemma NaturalCmpCorrectedEqualIff(a: seq<char>, b: seq<char>)
    ensures NaturalCmpCorrected(a, b) == Equal <==> a == b
  {
    LexCmpMeaning(a, b);
    if a == b {
      FirstDifferenceReflexive(Segments(a));
    }
  }

  /** Swapping the arguments of the corrected comparator reverses it. */
  lemma NaturalCmpCorrectedAntisymmetric(a: seq<char>, b: seq<char>)
    ensures NaturalCmpCorrected(b, a) == Reverse(NaturalCmpCorrected(a, b))
  {
    FirstDifferenceAntisymmetric(Segments(a), Segments(b));
    LexCmpAntisymmetric(a, b);
  }

  /** The correction changes only the fallback for segmentations of
      different lengths, where the shorter one now comes first; everywhere
      else it answers as `natural_cmp`. */
  lemma NaturalCmpCorrectedAgrees(a: seq<char>, b: seq<char>)
    ensures var xs, ys := Segments(a), Segments(b);
            if FirstDifference(xs, ys).None? && |xs| != |ys|
            then NaturalCmpCorrected(a, b) == CmpInt(|xs|, |ys|)
            else NaturalCmpCorrected(a, b) == NaturalCmp(a, b)
  {
  }
}
