/** The segmenter: `StringElement` and `StringElementIter::next`.

    The iterator is modelled by its single step `Next`, which takes the
    unconsumed suffix and returns the produced segment together with the
    new suffix; `Segments` runs the steps to exhaustion, which is the
    sequence the lazy iterator yields. */
module Segmenter {
  import opened Options
  import opened Text

  /** `StringElement`: a run of digits or a run of other characters. */
  datatype Segment = Digits(text: seq<char>) | Characters(text: seq<char>)

  /** A segment is non-empty and its characters are all of its kind. */
  predicate WellFormed(seg: Segment) {
    && |seg.text| > 0
    && match seg
       case Digits(t) => AllDigits(t)
       case Characters(t) => NoDigits(t)
  }

  /** The segment cannot be extended: what follows it is empty or starts
      with a character of the other kind. */
  predicate Maximal(seg: Segment, rest: seq<char>) {
    |rest| == 0 || IsDigit(rest[0]) != seg.Digits?
  }

  /** One step of `StringElementIter`: split off the longest prefix whose
      characters share the class of the first character. */
  function Next(s: seq<char>): (r: Option<(Segment, seq<char>)>)
    ensures r.None? <==> |s| == 0
    ensures r.Some? ==> WellFormed(r.value.0)
    ensures r.Some? ==> r.value.0.text + r.value.1 == s
    ensures r.Some? ==> Maximal(r.value.0, r.value.1)
  {
    if |s| == 0 then None
    else if IsDigit(s[0]) then
      match Position(s, c => !IsDigit(c))
      case None => Some((Digits(s), []))
      case Some(len) => Some((Digits(s[..len]), s[len..]))
    else
      match Position(s, c => IsDigit(c))
      case None => Some((Characters(s), []))
      case Some(len) => Some((Characters(s[..len]), s[len..]))
  }

  /** The text a sequence of segments covers, in order. */
  function Concat(segs: seq<Segment>): seq<char> {
    if |segs| == 0 then [] else segs[0].text + Concat(segs[1..])
  }

  predicate AllWellFormed(segs: seq<Segment>) {
    forall i :: 0 <= i < |segs| ==> WellFormed(segs[i])
  }

  lemma AllWellFormedAppend(xs: seq<Segment>, ys: seq<Segment>)
    requires AllWellFormed(xs) && AllWellFormed(ys)
    ensures AllWellFormed(xs + ys)
  {
    forall i | 0 <= i < |xs + ys| ensures WellFormed((xs + ys)[i]) {
      if i < |xs| {
        assert (xs + ys)[i] == xs[i];
      } else {
        assert (xs + ys)[i] == ys[i - |xs|];
      }
    }
  }

  /** Neighbouring segments are of different kinds. */
  predicate Alternating(segs: seq<Segment>) {
    forall i :: 0 < i < |segs| ==> segs[i - 1].Digits? != segs[i].Digits?
  }

  predicate ValidSegmentation(segs: seq<Segment>) {
    AllWellFormed(segs) && Alternating(segs)
  }

  /** Everything the iterator yields for `s`. The segments are well formed,
      alternate in kind and cover `s` exactly, in order. */
  function Segments(s: seq<char>): (r: seq<Segment>)
    ensures ValidSegmentation(r)
    ensures Concat(r) == s
    ensures |r| <= |s|
    ensures |s| > 0 ==> |r| > 0 && r[0].Digits? == IsDigit(s[0])
    decreases |s|
  {
    match Next(s)
    case None => []
    case Some((seg, rest)) => [seg] + Segments(rest)
  }

  /** `Next` is determined by its contract: any maximal well-formed prefix
      is the one it splits off. */
  lemma NextUnique(s: seq<char>, seg: Segment, rest: seq<char>)
    requires WellFormed(seg) && seg.text + rest == s && Maximal(seg, rest)
    ensures Next(s) == Some((seg, rest))
  {
    var (seg', rest') := Next(s).value;
    var t, t' := seg.text, seg'.text;
    assert s[0] == t[0] && s[0] == t'[0];
    assert seg.Digits? == IsDigit(s[0]) == seg'.Digits?;
    assert forall j :: 0 <= j < |t| ==> s[j] == t[j] && IsDigit(t[j]) == seg.Digits?;
    assert forall j :: 0 <= j < |t'| ==> s[j] == t'[j] && IsDigit(t'[j]) == seg.Digits?;
    assert |rest| > 0 ==> s[|t|] == rest[0] && IsDigit(s[|t|]) != seg.Digits?;
    assert |rest'| > 0 ==> s[|t'|] == rest'[0] && IsDigit(s[|t'|]) != seg.Digits?;
    assert |t| == |t'|;
    assert t == s[..|t|] == t';
    assert rest == s[|t|..] == rest';
  }

  /** One iterator step: a maximal well-formed segment at the front is
      produced first, and segmentation continues on what follows it. */
  lemma SegmentsStep(seg: Segment, rest: seq<char>)
    requires WellFormed(seg) && Maximal(seg, rest)
    ensures Segments(seg.text + rest) == [seg] + Segments(rest)
  {
    NextUnique(seg.text + rest, seg, rest);
  }

  /** Segmentation is unique: every well-formed, alternating sequence of
      segments covering `s` is the one the iterator yields. */
  lemma {:induction false} SegmentationUnique(s: seq<char>, segs: seq<Segment>)
    requires ValidSegmentation(segs) && Concat(segs) == s
    ensures segs == Segments(s)
    decreases |segs|
  {
    if |segs| > 0 {
      var tail := segs[1..];
      var rest := Concat(tail);
      assert ValidSegmentation(tail) by {
        forall i | 0 < i < |tail| ensures tail[i - 1].Digits? != tail[i].Digits? {
          assert tail[i - 1] == segs[i] && tail[i] == segs[i + 1];
        }
      }
      if |tail| > 0 {
        assert WellFormed(tail[0]);
        assert rest[0] == tail[0].text[0];
        assert segs[0].Digits? != tail[0].Digits?;
      }
      NextUnique(s, segs[0], rest);
      SegmentationUnique(rest, tail);
      assert segs == [segs[0]] + tail;
    }
  }

  /** A non-empty string without a digit is a single `Characters` run. */
  lemma SegmentsOfNoDigits(s: seq<char>)
    requires |s| > 0 && NoDigits(s)
    ensures Segments(s) == [Characters(s)]
  {
    SegmentationUnique(s, [Characters(s)]);
  }

  /** A non-empty string of digits is a single `Digits` run. */
  lemma SegmentsOfAllDigits(s: seq<char>)
    requires |s| > 0 && AllDigits(s)
    ensures Segments(s) == [Digits(s)]
  {
    SegmentationUnique(s, [Digits(s)]);
  }

  lemma {:induction false} ConcatAppend(xs: seq<Segment>, ys: seq<Segment>)
    ensures Concat(xs + ys) == Concat(xs) + Concat(ys)
    decreases |xs|
  {
    if |xs| > 0 {
      assert (xs + ys)[0] == xs[0];
      assert (xs + ys)[1..] == xs[1..] + ys;
      ConcatAppend(xs[1..], ys);
      calc {
        Concat(xs + ys);
        xs[0].text + Concat(xs[1..] + ys);
        xs[0].text + (Concat(xs[1..]) + Concat(ys));
        (xs[0].text + Concat(xs[1..])) + Concat(ys);
        Concat(xs) + Concat(ys);
      }
    } else {
      assert xs + ys == ys;
    }
  }

  /** The last character covered by a segmentation lies in its last
      segment. */
  lemma {:induction false} ConcatLast(segs: seq<Segment>)
    requires |segs| > 0 && AllWellFormed(segs)
    ensures |Concat(segs)| > 0
    ensures Concat(segs)[|Concat(segs)| - 1] == segs[|segs| - 1].text[|segs[|segs| - 1].text| - 1]
    decreases |segs|
  {
    assert WellFormed(segs[0]);
    if |segs| > 1 {
      ConcatLast(segs[1..]);
    }
  }

  /** Two alternating sequences joined where the kinds differ alternate. */
  lemma AlternatingAppend(xs: seq<Segment>, ys: seq<Segment>)
    requires Alternating(xs) && Alternating(ys)
    requires |xs| > 0 && |ys| > 0 && xs[|xs| - 1].Digits? != ys[0].Digits?
    ensures Alternating(xs + ys)
  {
    forall i | 0 < i < |xs + ys| ensures (xs + ys)[i - 1].Digits? != (xs + ys)[i].Digits? {
      if i < |xs| {
        assert (xs + ys)[i - 1] == xs[i - 1] && (xs + ys)[i] == xs[i];
      } else if i == |xs| {
        assert (xs + ys)[i - 1] == xs[|xs| - 1] && (xs + ys)[i] == ys[0];
      } else {
        assert (xs + ys)[i - 1] == ys[i - 1 - |xs|] && (xs + ys)[i] == ys[i - |xs|];
      }
    }
  }

  /** Cutting a string where the character class changes cuts its
      segmentation in the same place. */
  lemma SegmentsAppend(t: seq<char>, u: seq<char>)
    requires |t| == 0 || |u| == 0 || IsDigit(t[|t| - 1]) != IsDigit(u[0])
    ensures Segments(t + u) == Segments(t) + Segments(u)
  {
    var xs, ys := Segments(t), Segments(u);
    if |xs| == 0 {
      assert t == [] && t + u == u;
    } else if |ys| == 0 {
      assert u == [] && t + u == t;
    } else {
      ConcatLast(xs);
      var last := xs[|xs| - 1];
      assert WellFormed(last);
      assert last.Digits? == IsDigit(t[|t| - 1]);
      AllWellFormedAppend(xs, ys);
      AlternatingAppend(xs, ys);
      ConcatAppend(xs, ys);
      SegmentationUnique(t + u, xs + ys);
    }
  }
}
