/** Concrete cases from the repository's unit tests, derived from the
    general lemmas, and the behaviours they imply at the edges.

    Each case takes its strings as parameters fixed by its precondition. */
module Examples {
  import opened Options
  import opened Orderings
  import opened Text
  import opened Segmenter
  import opened DigitCompare
  import opened NaturalCompare
  import opened CorrectedCompare

  /** The empty string yields no segment; a run of one kind yields one. */
  lemma SingleRunSegmentation(digits: seq<char>, letters: seq<char>)
    requires digits == "123" && letters == "xyz"
    ensures Segments("") == []
    ensures Segments(digits) == [Digits("123")]
    ensures Segments(letters) == [Characters("xyz")]
  {
    SegmentsOfAllDigits(digits);
    SegmentsOfNoDigits(letters);
  }

  /** Three runs, as in the test on "xy12ab". */
  lemma ThreeRunSegmentation(s: seq<char>)
    requires s == "xy12ab"
    ensures Segments(s) == [Characters("xy"), Digits("12"), Characters("ab")]
  {
    SegmentationUnique(s, [Characters("xy"), Digits("12"), Characters("ab")]);
  }

  /** Letters outside ASCII stay inside their `Characters` runs. */
  lemma NonAsciiSegmentation(s: seq<char>)
    requires s == "Löwe1老虎32Léopard"
    ensures Segments(s)
         == [Characters("Löwe"), Digits("1"), Characters("老虎"), Digits("32"), Characters("Léopard")]
  {
    var segs := [Characters("Löwe"), Digits("1"), Characters("老虎"), Digits("32"), Characters("Léopard")];
    NonAsciiRunsValid(segs);
    NonAsciiRunsCover(segs);
    SegmentationUnique(s, segs);
  }

  lemma NonAsciiRunsValid(segs: seq<Segment>)
    requires segs == [Characters("Löwe"), Digits("1"), Characters("老虎"), Digits("32"), Characters("Léopard")]
    ensures ValidSegmentation(segs)
  {
    assert WellFormed(segs[0]);
    assert WellFormed(segs[1]);
    assert WellFormed(segs[2]);
    assert WellFormed(segs[3]);
    assert WellFormed(segs[4]);
  }

  lemma NonAsciiRunsCover(segs: seq<Segment>)
    requires segs == [Characters("Löwe"), Digits("1"), Characters("老虎"), Digits("32"), Characters("Léopard")]
    ensures Concat(segs) == "Löwe1老虎32Léopard"
  {
    assert Concat(segs[4..]) == "Léopard";
    assert Concat(segs[3..]) == "32" + "Léopard";
    assert Concat(segs[2..]) == "老虎" + "32Léopard";
    assert Concat(segs[1..]) == "1" + "老虎32Léopard";
  }

  /** Runs of different lengths without leading zeros: the longer is the
      larger. */
  lemma DigitRunsOfDifferentLength(a: seq<char>, b: seq<char>)
    requires a == "43623" && b == "3445"
    ensures CmpDigitStr(a, b) == Greater
  {
    TrimLeadingZeroesAt(a, 0);
    TrimLeadingZeroesAt(b, 0);
  }

  /** Runs of equal length compare digit by digit. */
  lemma DigitRunsOfEqualLength(a: seq<char>, b: seq<char>)
    requires a == "125" && b == "114"
    ensures CmpDigitStr(a, b) == Greater
  {
    TrimLeadingZeroesAt(a, 0);
    TrimLeadingZeroesAt(b, 0);
    assert a[0] == b[0] && b[1] < a[1];
    assert LexCmp(a, b) == LexCmp(a[1..], b[1..]) == Greater;
  }

  /** The empty run is smaller than any run denoting a positive number. */
  lemma EmptyDigitRun(b: seq<char>)
    requires b == "12"
    ensures CmpDigitStr([], b) == Less
  {
    TrimLeadingZeroesAt([], 0);
    TrimLeadingZeroesAt(b, 0);
  }

  /** Leading zeros do not count. */
  lemma DigitRunsWithLeadingZeros(a: seq<char>, b: seq<char>)
    requires a == "0043623" && b == "0003445"
    ensures CmpDigitStr(a, b) == Greater
  {
    TrimLeadingZeroesAt(a, 2);
    TrimLeadingZeroesAt(b, 3);
  }

  /** Runs of zeros of different lengths are all equal. */
  lemma ZeroRuns(z: seq<char>, z': seq<char>)
    requires z == "00" && z' == "000"
    ensures CmpDigitStr(z, z') == Equal
  {
    TrimLeadingZeroesAt(z, 2);
    TrimLeadingZeroesAt(z', 3);
  }

  /** The empty string comes before every other string. */
  lemma EmptyStringExamples(a: seq<char>)
    requires a == "a"
    ensures NaturalCmp([], []) == Equal
    ensures NaturalCmp([], a) == Less
    ensures NaturalCmp(a, []) == Greater
  {
    NaturalCmpDigitFree([], []);
    NaturalCmpDigitFree([], a);
    NaturalCmpDigitFree(a, []);
  }

  /** "z2.doc" comes before "z10.doc": the digit runs compare by value. */
  lemma DocumentNameExample(a: seq<char>, b: seq<char>)
    requires a == "z2.doc" && b == "z10.doc"
    ensures NaturalCmp(a, b) == Less
  {
    var p, m, n, q := "z", "2", "10", ".doc";
    assert a == p + m + q && b == p + n + q;
    assert NatValue(m) == 2;
    assert NatValue(n[1..]) == 0;
    assert NatValue(n) == 10;
    NumericRunDecides(p, m, n, q, q);
  }

  /** The sorting test puts "ab1" before "ab12cd". */
  lemma SortTestNumericPair(a: seq<char>, b: seq<char>)
    requires a == "ab1" && b == "ab12cd"
    ensures NaturalCmp(a, b) == Less
  {
    var p, m, n, q, q' := "ab", "1", "12", "", "cd";
    assert a == p + m + q && b == p + n + q';
    assert NatValue(m) == 1;
    assert NatValue(n[1..]) == 2;
    assert NatValue(n) == 12;
    NumericRunDecides(p, m, n, q, q');
  }

  /** The sorting test puts "ab12cd" before "zz": the leading letter runs
      differ. */
  lemma SortTestTextPair(a: seq<char>, b: seq<char>)
    requires a == "ab12cd" && b == "zz"
    ensures NaturalCmp(a, b) == Less
  {
    var p, r, q := "ab", "12cd", "zz";
    assert a == p + r && b == q + [];
    LexCmpFirstCharacter(p, q);
    LeadingTextDecides(p, r, q, []);
  }

  /** The sorting test puts "ab1" before "zz": the leading letter runs
      differ. */
  lemma SortTestOuterPair(a: seq<char>, b: seq<char>)
    requires a == "ab1" && b == "zz"
    ensures NaturalCmp(a, b) == Less
  {
    var p, r, q := "ab", "1", "zz";
    assert a == p + r && b == q + [];
    LexCmpFirstCharacter(p, q);
    LeadingTextDecides(p, r, q, []);
  }

  /** The three strings of the sorting tests are ordered consistently:
      every pair compares Less in the order "ab1", "ab12cd", "zz", and
      Greater with the arguments swapped. A sort with `natural_cmp` can thus
      only yield that order, and a sort with the swapped comparator only
      its reverse. */
  lemma SortTestOrder(a: seq<char>, b: seq<char>, c: seq<char>)
    requires a == "ab1" && b == "ab12cd" && c == "zz"
    ensures NaturalCmp(a, b) == Less && NaturalCmp(b, c) == Less && NaturalCmp(a, c) == Less
    ensures NaturalCmp(b, a) == Greater && NaturalCmp(c, b) == Greater && NaturalCmp(c, a) == Greater
  {
    SortTestNumericPair(a, b);
    SortTestTextPair(b, c);
    SortTestOuterPair(a, c);
    NaturalCmpAntisymmetric(a, b);
    NaturalCmpAntisymmetric(b, c);
    NaturalCmpAntisymmetric(a, c);
  }

  /** Leading zeros tie the digit runs, after which the whole strings are
      compared lexicographically: "007" comes before "7", not level with it. */
  lemma LeadingZerosExample(a: seq<char>, b: seq<char>)
    requires a == "007" && b == "7"
    ensures NaturalCmp(a, b) == Less
  {
    SegmentsOfAllDigits(a);
    SegmentsOfAllDigits(b);
    TrimLeadingZeroesAt(a, 2);
    TrimLeadingZeroesAt(b, 0);
    assert a[2..] == b;
    assert FirstDifference([Digits(a)], [Digits(b)]) == None;
    assert a[0] < b[0];
  }

  /** `natural_cmp` is not transitive: three strings form a cycle. */
  lemma NotTransitive()
    ensures exists a, b, c :: NaturalCmp(a, b) == Less && NaturalCmp(b, c) == Less && NaturalCmp(c, a) == Less
  {
    Cycle("01", "1a", "001b");
  }

  /** The cycle: "01" < "1a" < "001b" < "01". A tie on the leading digit run
      is broken by the next segment when both strings have one, and by
      whole-string comparison otherwise. */
  lemma Cycle(a: seq<char>, b: seq<char>, c: seq<char>)
    requires a == "01" && b == "1a" && c == "001b"
    ensures NaturalCmp(a, b) == Less
    ensures NaturalCmp(b, c) == Less
    ensures NaturalCmp(c, a) == Less
  {
    CycleFirstStep(a, b);
    CycleSecondStep(b, c);
    CycleThirdStep(c, a);
  }

  lemma CycleSegmentation(b: seq<char>, c: seq<char>)
    requires b == "1a" && c == "001b"
    ensures Segments(b) == [Digits("1"), Characters("a")]
    ensures Segments(c) == [Digits("001"), Characters("b")]
  {
    SegmentationUnique(b, [Digits("1"), Characters("a")]);
    SegmentationUnique(c, [Digits("001"), Characters("b")]);
  }

  /** "01" before "1a": the runs tie and "01" has no further segment, so the
      whole strings decide. */
  lemma CycleFirstStep(a: seq<char>, b: seq<char>)
    requires a == "01" && b == "1a"
    ensures NaturalCmp(a, b) == Less
  {
    var one := "1";
    SegmentsOfAllDigits(a);
    CycleSegmentation(b, "001b");
    TrimLeadingZeroesAt(a, 1);
    TrimLeadingZeroesAt(one, 0);
    assert a[1..] == one;
    assert FirstDifference([Digits(a)], [Digits(one), Characters("a")]) == None;
    assert a[0] < b[0];
  }

  /** "1a" before "001b": the runs tie and the next segments decide. */
  lemma CycleSecondStep(b: seq<char>, c: seq<char>)
    requires b == "1a" && c == "001b"
    ensures NaturalCmp(b, c) == Less
  {
    var one, zeros := "1", "001";
    var xs, ys := [Digits(one), Characters("a")], [Digits(zeros), Characters("b")];
    CycleSegmentation(b, c);
    TrimLeadingZeroesAt(one, 0);
    TrimLeadingZeroesAt(zeros, 2);
    assert zeros[2..] == one;
    assert CompareSegments(xs[0], ys[0]) == Equal;
    assert CompareSegments(xs[1], ys[1]) == Less;
    assert FirstDifference(xs, ys) == FirstDifference(xs[1..], ys[1..]) == Some(Less);
  }

  /** "001b" before "01": the runs tie and "01" has no further segment, so
      the whole strings decide. */
  lemma CycleThirdStep(c: seq<char>, a: seq<char>)
    requires c == "001b" && a == "01"
    ensures NaturalCmp(c, a) == Less
  {
    var zeros := "001";
    CycleSegmentation("1a", c);
    SegmentsOfAllDigits(a);
    TrimLeadingZeroesAt(zeros, 2);
    TrimLeadingZeroesAt(a, 1);
    assert zeros[2..] == a[1..];
    assert FirstDifference([Digits(zeros), Characters("b")], [Digits(a)]) == None;
    assert c[0] == a[0] && c[1] < a[1];
    assert LexCmp(c, a) == LexCmp(c[1..], a[1..]) == Less;
  }

  /** On the cycle of `natural_cmp`, the corrected comparator puts "01"
      before "001b": the single digit run of "01" ties with the first run of
      "001b", and the shorter segmentation comes first. */
  lemma CorrectedBreaksCycle(a: seq<char>, c: seq<char>)
    requires a == "01" && c == "001b"
    ensures NaturalCmpCorrected(a, c) == Less
    ensures NaturalCmp(a, c) == Greater
  {
    var zeros := "001";
    SegmentsOfAllDigits(a);
    CycleSegmentation("1a", c);
    TrimLeadingZeroesAt(a, 1);
    TrimLeadingZeroesAt(zeros, 2);
    assert a[1..] == zeros[2..];
    assert FirstDifference([Digits(a)], [Digits(zeros), Characters("b")]) == None;
    CycleThirdStep(c, a);
    NaturalCmpAntisymmetric(c, a);
  }
}
