/** `natural_cmp`: walk the segmentations of both strings in lockstep,
    return the first pair that does not compare equal, and otherwise fall
    back to comparing the whole strings lexicographically. */
module NaturalCompare {
  import opened Options
  import opened Orderings
  import opened Text
  import opened Segmenter
  import opened DigitCompare

  /** The comparison of one zipped pair: two digit runs compare by number,
      every other pairing compares its texts lexicographically. A pair is
      Equal exactly when both are digit runs that agree up to leading zeros,
      or when both have the same text. */
  function CompareSegments(x: Segment, y: Segment): (r: Ordering)
    requires WellFormed(x) && WellFormed(y)
    ensures r == Equal <==> if x.Digits? && y.Digits?
                            then TrimLeadingZeroes(x.text) == TrimLeadingZeroes(y.text)
                            else x.text == y.text
  {
    match (x, y)
    case (Digits(a), Digits(b)) => CmpDigitStr(a, b)
    case _ => LexCmp(x.text, y.text)
  }

  /** `zip` followed by `map` and `find(|o| o != Equal)`: the comparison of
      the first pair, in order, that does not compare equal; pairing stops
      at the end of the shorter sequence. */
  function FirstDifference(xs: seq<Segment>, ys: seq<Segment>): (r: Option<Ordering>)
    requires AllWellFormed(xs) && AllWellFormed(ys)
    ensures r.Some? ==> r.value != Equal
    ensures r.Some? ==> exists k :: 0 <= k < |xs| && k < |ys| && r.value == CompareSegments(xs[k], ys[k])
                                   && forall j :: 0 <= j < k ==> CompareSegments(xs[j], ys[j]) == Equal
    ensures r.None? <==> forall j :: 0 <= j < |xs| && j < |ys| ==> CompareSegments(xs[j], ys[j]) == Equal
    decreases |xs|
  {
    if |xs| == 0 || |ys| == 0 then None
    else
      var o := CompareSegments(xs[0], ys[0]);
      if o != Equal then Some(o) else FirstDifference(xs[1..], ys[1..])
  }

  /** `natural_cmp`. It reports Equal exactly for identical strings: two
      different strings that tie on every zipped pair are told apart by the
      fallback comparison of the whole strings. */
  function NaturalCmp(a: seq<char>, b: seq<char>): (r: Ordering)
    ensures r == Equal <==> a == b
  {
    FirstDifferenceReflexive(Segments(a));
    match FirstDifference(Segments(a), Segments(b))
    case Some(o) => o
    case None => LexCmp(a, b)
  }

  lemma CompareSegmentsReflexive(x: Segment)
    requires WellFormed(x)
    ensures CompareSegments(x, x) == Equal
  {
    if x.Digits? {
      CmpDigitStrIsNumeric(x.text, x.text);
    } else {
      LexCmpMeaning(x.text, x.text);
    }
  }

  lemma CompareSegmentsAntisymmetric(x: Segment, y: Segment)
    requires WellFormed(x) && WellFormed(y)
    ensures CompareSegments(y, x) == Reverse(CompareSegments(x, y))
  {
    if x.Digits? && y.Digits? {
      CmpDigitStrAntisymmetric(x.text, y.text);
    } else {
      LexCmpAntisymmetric(x.text, y.text);
    }
  }

  /** A segmentation compared with itself shows no difference. */
  lemma {:induction false} FirstDifferenceReflexive(xs: seq<Segment>)
    requires AllWellFormed(xs)
    ensures FirstDifference(xs, xs) == None
    decreases |xs|
  {
    if |xs| > 0 {
      CompareSegmentsReflexive(xs[0]);
      FirstDifferenceReflexive(xs[1..]);
    }
  }

  /** Swapping the segmentations reverses the first difference. */
  lemma {:induction false} FirstDifferenceAntisymmetric(xs: seq<Segment>, ys: seq<Segment>)
    requires AllWellFormed(xs) && AllWellFormed(ys)
    ensures FirstDifference(ys, xs) == match FirstDifference(xs, ys)
                                       case None => None
                                       case Some(o) => Some(Reverse(o))
    decreases |xs|
  {
    if |xs| > 0 && |ys| > 0 {
      CompareSegmentsAntisymmetric(xs[0], ys[0]);
      FirstDifferenceAntisymmetric(xs[1..], ys[1..]);
    }
  }

  /** A common leading part of two segmentations is skipped over. */
  lemma {:induction false} FirstDifferenceCommonPrefix(ps: seq<Segment>, xs: seq<Segment>, ys: seq<Segment>)
    requires AllWellFormed(ps) && AllWellFormed(xs) && AllWellFormed(ys)
    ensures AllWellFormed(ps + xs) && AllWellFormed(ps + ys)
    ensures FirstDifference(ps + xs, ps + ys) == FirstDifference(xs, ys)
    decreases |ps|
  {
    AllWellFormedAppend(ps, xs);
    AllWellFormedAppend(ps, ys);
    if |ps| == 0 {
      assert ps + xs == xs && ps + ys == ys;
    } else {
      assert (ps + xs)[0] == ps[0] == (ps + ys)[0];
      assert (ps + xs)[1..] == ps[1..] + xs;
      assert (ps + ys)[1..] == ps[1..] + ys;
      CompareSegmentsReflexive(ps[0]);
      FirstDifferenceCommonPrefix(ps[1..], xs, ys);
    }
  }

  /** Swapping the arguments reverses the result, pair by pair. */
  lemma NaturalCmpAntisymmetric(a: seq<char>, b: seq<char>)
    ensures NaturalCmp(b, a) == Reverse(NaturalCmp(a, b))
  {
    FirstDifferenceAntisymmetric(Segments(a), Segments(b));
    LexCmpAntisymmetric(a, b);
  }

  /** On strings without digits `natural_cmp` is plain lexicographic
      comparison. */
  lemma NaturalCmpDigitFree(a: seq<char>, b: seq<char>)
    requires NoDigits(a) && NoDigits(b)
    ensures NaturalCmp(a, b) == LexCmp(a, b)
  {
    if |a| > 0 && |b| > 0 {
      SegmentsOfNoDigits(a);
      SegmentsOfNoDigits(b);
      assert FirstDifference([Characters(a)], [Characters(b)]) ==
        if LexCmp(a, b) == Equal then None else Some(LexCmp(a, b));
    }
  }

  /** Strings that start with different runs of non-digits compare as
      those runs do, whatever follows them. */
  lemma LeadingTextDecides(p: seq<char>, r: seq<char>, q: seq<char>, r': seq<char>)
    requires |p| > 0 && NoDigits(p) && (|r| == 0 || IsDigit(r[0]))
    requires |q| > 0 && NoDigits(q) && (|r'| == 0 || IsDigit(r'[0]))
    requires p != q
    ensures NaturalCmp(p + r, q + r') == LexCmp(p, q)
  {
    SegmentsOfNoDigits(p);
    SegmentsOfNoDigits(q);
    SegmentsAppend(p, r);
    SegmentsAppend(q, r');
    LexCmpMeaning(p, q);
    assert Segments(p + r)[0] == Characters(p) && Segments(q + r')[0] == Characters(q);
  }

  /** The segmentation of a string made of a part ending in a non-digit, a
      digit run and a part starting with a non-digit. */
  lemma SegmentsAroundRun(p: seq<char>, m: seq<char>, q: seq<char>)
    requires |m| > 0 && AllDigits(m)
    requires |p| == 0 || !IsDigit(p[|p| - 1])
    requires |q| == 0 || !IsDigit(q[0])
    ensures Segments(p + m + q) == Segments(p) + [Digits(m)] + Segments(q)
  {
    var pm := p + m;
    var A, Q := Segments(p), Segments(q);
    assert Segments(pm) == A + [Digits(m)] by {
      SegmentsOfAllDigits(m);
      SegmentsAppend(p, m);
    }
    assert Segments(pm + q) == Segments(pm) + Q by {
      assert pm[|pm| - 1] == m[|m| - 1];
      SegmentsAppend(pm, q);
    }
  }

  /** Regrouping a concatenation of three sequences. */
  lemma AppendAssociative<T>(xs: seq<T>, ys: seq<T>, zs: seq<T>)
    ensures xs + ys + zs == xs + (ys + zs)
  {
  }

  /** Segmentations that agree up to a pair of digit runs with different
      values differ first at that pair. */
  lemma FirstDifferenceAtRun(ps: seq<Segment>, m: seq<char>, n: seq<char>, qs: seq<Segment>, qs': seq<Segment>)
    requires AllWellFormed(ps) && AllWellFormed(qs) && AllWellFormed(qs')
    requires |m| > 0 && AllDigits(m) && |n| > 0 && AllDigits(n)
    requires CmpDigitStr(m, n) != Equal
    ensures AllWellFormed(ps + ([Digits(m)] + qs)) && AllWellFormed(ps + ([Digits(n)] + qs'))
    ensures FirstDifference(ps + ([Digits(m)] + qs), ps + ([Digits(n)] + qs')) == Some(CmpDigitStr(m, n))
  {
    var xs, ys := [Digits(m)] + qs, [Digits(n)] + qs';
    AllWellFormedAppend([Digits(m)], qs);
    AllWellFormedAppend([Digits(n)], qs');
    FirstDifferenceCommonPrefix(ps, xs, ys);
  }

  /** Natural order: after a common part ending in a non-digit, digit runs
      denoting different numbers decide the comparison by those numbers,
      whatever follows them. */
  lemma NumericRunDecides(p: seq<char>, m: seq<char>, n: seq<char>, q: seq<char>, q': seq<char>)
    requires |p| == 0 || !IsDigit(p[|p| - 1])
    requires |m| > 0 && AllDigits(m) && |n| > 0 && AllDigits(n)
    requires |q| == 0 || !IsDigit(q[0])
    requires |q'| == 0 || !IsDigit(q'[0])
    requires NatValue(m) != NatValue(n)
    ensures NaturalCmp(p + m + q, p + n + q') == CmpInt(NatValue(m), NatValue(n))
  {
    var ps, qs, qs' := Segments(p), Segments(q), Segments(q');
    assert Segments(p + m + q) == ps + ([Digits(m)] + qs) by {
      SegmentsAroundRun(p, m, q);
      AppendAssociative(ps, [Digits(m)], qs);
    }
    assert Segments(p + n + q') == ps + ([Digits(n)] + qs') by {
      SegmentsAroundRun(p, n, q');
      AppendAssociative(ps, [Digits(n)], qs');
    }
    CmpDigitStrIsNumeric(m, n);
    FirstDifferenceAtRun(ps, m, n, qs, qs');
  }
}
