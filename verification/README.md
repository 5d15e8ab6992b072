# natural-compare in Dafny

A model of the Rust crate `natural-compare`. The crate compares two strings in
"natural order": runs of decimal digits compare by the numbers they denote, so
"z2.doc" sorts before "z10.doc".

The whole crate lives in `src/lib.rs`. It has three parts:

- **Segmenter** (`segmenter.dfy`): `StringElement` and
  `StringElementIter::next`. A string is split into maximal runs of digits
  (`Digits`) and runs of other characters (`Characters`).
  - The iterator is modelled by its step `Next`, on the unconsumed suffix.
  - `Segments` is the whole sequence the iterator yields.
- **Digit runs** (`digit_compare.dfy`): `cmp_digit_str` with
  `trim_leading_zeroes`. Two digit runs compare by length after their leading
  zeros are dropped, then lexicographically.
  - The reference definition is `NatValue`, the unbounded number a run denotes.
  - `cmp_digit_str` is proved to agree with numeric comparison of `NatValue`
    for runs of any length.
- **Comparison** (`natural_compare.dfy`): `natural_cmp`.
  - It zips the two segmentations and compares each pair: two digit runs by
    number, anything else by text.
  - It returns the first pair that is not Equal.
  - Failing that, it compares the whole strings lexicographically.

Supporting modules:

- `options.dfy`: `Option`.
- `orderings.dfy`: `Ordering`, reversal, `Ordering::then`, integer comparison.
- `text.dfy`: the digit class, `find`/`position`, and lexicographic comparison
  of strings.
  - `LexLess` is the reference definition of lexicographic order.
- `corrected_compare.dfy`: a corrected comparator; see "## Findings".
- `examples.dfy`: the repository's unit tests, restated as lemmas derived
  from the general ones.

Two behaviours of the code are worth stating plainly:

- **"007" against "7".** The two digit runs tie, because they denote the same
  number. `natural_cmp` then compares the whole strings (line 87), where '0'
  comes before '7', so "007" comes first (`Examples.LeadingZerosExample`).
  `natural_cmp` is Equal only for identical strings (`NaturalCompare.NaturalCmp`).
- **Digit class.** `char::is_digit(10)` (line 20) accepts exactly '0'..'9', so
  other Unicode decimal digits fall into `Characters` runs. `Text.IsDigit`
  does the same.

## Model

| member | source | states |
|---|---|---|
| Text.Position | src/lib.rs:21 | `str::find` / `chars().position` with a predicate: the index of the first matching character; None exactly when no character matches |
| Text.LexCmp | src/lib.rs:87 | `str::cmp` (also at lines 69 and 81): Equal exactly for identical strings; `Text.LexCmpMeaning` gives the other two outcomes |
| Text.LexCmpMeaning | src/lib.rs:69 | `str::cmp`, as used at lines 69, 81 and 87, is lexicographic order: Less iff a proper prefix or smaller at the first difference, Equal iff identical, Greater iff the reverse |
| Text.LexCmpAntisymmetric | src/lib.rs:87 | swapping the strings reverses their lexicographic comparison |
| Text.LexCmpTransitive | src/lib.rs:87 | lexicographic Less is transitive |
| Text.LexCmpChains | src/lib.rs:87 | lexicographic comparison is a total order: Equal and Less chain through any middle string |
| Segmenter.Next | src/lib.rs:16-49 | one iterator step: None exactly on the empty string; otherwise a non-empty segment of one class, that is a prefix of the input with the rest after it, and that cannot be extended |
| Segmenter.NextUnique | src/lib.rs:16-49 | any maximal well-formed prefix is the one the step splits off, so the step is fully determined by its contract |
| Segmenter.Segments | src/lib.rs:13-50 | the iterator's output: well-formed segments of alternating kinds that concatenate back to the input, at most one per character, the first of the class of the first character |
| Segmenter.SegmentationUnique | src/lib.rs:13-50 | segmentation is unique: every alternating sequence of well-formed segments that covers the string is the one the iterator yields |
| Segmenter.SegmentsOfNoDigits | src/lib.rs:33-39 | a non-empty string without digits is one `Characters` segment |
| Segmenter.SegmentsOfAllDigits | src/lib.rs:20-25 | a non-empty string of digits is one `Digits` segment |
| Segmenter.SegmentsAppend | src/lib.rs:13-50 | cutting a string where the class changes cuts its segmentation at the same place |
| DigitCompare.TrimLeadingZeroes | src/lib.rs:60-64 | the result is a suffix of the input, everything removed is '0', and the result does not start with '0' (empty when the input is all zeros) |
| DigitCompare.TrimLeadingZeroesAt | src/lib.rs:60-64 | trimming removes exactly the leading zeros and nothing else |
| DigitCompare.TrimKeepsValue | src/lib.rs:65-66 | trimming keeps the number a digit run denotes |
| DigitCompare.LexCmpIsNumericOnEqualLength | src/lib.rs:69 | for digit runs of equal length, lexicographic order is numeric order |
| DigitCompare.LongerIsLarger | src/lib.rs:68-70 | without a leading zero, the longer digit run denotes the larger number |
| DigitCompare.CmpDigitStr | src/lib.rs:52-72 | `cmp_digit_str`: Equal exactly when the runs agree once leading zeros are removed, so all runs of zeros, the empty run included, are Equal; `DigitCompare.CmpDigitStrIsNumeric` gives the order |
| DigitCompare.CmpDigitStrIsNumeric | src/lib.rs:52-72 | `cmp_digit_str` compares the unbounded numbers the runs denote, whatever their length and leading zeros |
| DigitCompare.CmpDigitStrAntisymmetric | src/lib.rs:52-72 | swapping the runs reverses the result |
| NaturalCompare.CompareSegments | src/lib.rs:77-82 | one zipped pair: Equal exactly when both are digit runs that agree up to leading zeros, or both have the same text; two digit runs otherwise compare by number (`DigitCompare.CmpDigitStrIsNumeric`) |
| NaturalCompare.NaturalCmp | src/lib.rs:74-89 | `natural_cmp`: Equal exactly for identical strings, the empty one included |
| NaturalCompare.FirstDifference | src/lib.rs:75-83 | the zip/map/find chain: never Some(Equal); Some(o) is the comparison of the first pair, within the shorter sequence, that is not Equal; None exactly when every zipped pair is Equal |
| NaturalCompare.CompareSegmentsReflexive | src/lib.rs:77-82 | every segment compares Equal with itself |
| NaturalCompare.CompareSegmentsAntisymmetric | src/lib.rs:77-82 | swapping a pair reverses its comparison |
| NaturalCompare.FirstDifferenceReflexive | src/lib.rs:75-83 | a segmentation shows no difference against itself |
| NaturalCompare.FirstDifferenceAntisymmetric | src/lib.rs:75-83 | swapping the segmentations reverses the first difference |
| NaturalCompare.FirstDifferenceCommonPrefix | src/lib.rs:75-83 | a common leading part of two segmentations is skipped over |
| NaturalCompare.NaturalCmpAntisymmetric | src/lib.rs:74-89 | swapping the arguments reverses the result, pair by pair |
| NaturalCompare.NaturalCmpDigitFree | src/lib.rs:74-89 | on strings without digits, `natural_cmp` is plain lexicographic comparison |
| NaturalCompare.LeadingTextDecides | src/lib.rs:74-89 | strings that start with different runs of non-digits compare as those runs do, whatever follows them |
| NaturalCompare.SegmentsAroundRun | src/lib.rs:13-50 | a digit run between a part ending in a non-digit and a part starting with a non-digit is one segment of the whole string |
| NaturalCompare.FirstDifferenceAtRun | src/lib.rs:75-83 | segmentations that agree up to a pair of digit runs with different values differ first at that pair |
| NaturalCompare.NumericRunDecides | src/lib.rs:74-89 | natural order: after a common part, digit runs denoting different numbers decide by those numbers, whatever follows them |
| Examples.SingleRunSegmentation | src/lib.rs:157-168 | the empty string yields no segment; "123" and "xyz" yield one each |
| Examples.ThreeRunSegmentation | src/lib.rs:182-186 | "xy12ab" splits into "xy", "12", "ab" |
| Examples.NonAsciiSegmentation | src/lib.rs:189-198 | "Löwe1老虎32Léopard" splits into five runs; letters outside ASCII stay in their runs |
| Examples.DigitRunsOfDifferentLength | src/lib.rs:100 | "43623" is greater than "3445" |
| Examples.DigitRunsOfEqualLength | src/lib.rs:113 | "125" is greater than "114" |
| Examples.EmptyDigitRun | src/lib.rs:107 | the empty run is less than "12" |
| Examples.DigitRunsWithLeadingZeros | src/lib.rs:128 | "0043623" is greater than "0003445" |
| Examples.ZeroRuns | src/lib.rs:124 | "00" equals "000" |
| Examples.EmptyStringExamples | src/lib.rs:200-205 | "" equals ""; "" is less than "a" and "a" greater than "" |
| Examples.DocumentNameExample | src/lib.rs:230-242 | "z2.doc" comes before "z10.doc" |
| Examples.SortTestNumericPair | src/lib.rs:207-214 | "ab1" comes before "ab12cd" |
| Examples.SortTestTextPair | src/lib.rs:207-214 | "ab12cd" comes before "zz": the leading text runs differ |
| Examples.SortTestOuterPair | src/lib.rs:207-214 | "ab1" comes before "zz": the leading text runs differ |
| Examples.SortTestOrder | src/lib.rs:207-228 | the three strings of the sorting tests are ordered consistently: every pair compares Less in the order "ab1", "ab12cd", "zz", and Greater with the arguments swapped |
| Examples.LeadingZerosExample | src/lib.rs:85-88 | "007" comes before "7": the runs tie and the whole strings decide |
| Examples.NotTransitive | src/lib.rs:85-88 | `natural_cmp` is not transitive: some three strings each compare Less than the next, round a cycle |
| Examples.Cycle | src/lib.rs:74-89 | the cycle: "01" < "1a" < "001b" < "01" |
| Examples.CycleSegmentation | src/lib.rs:13-50 | "1a" splits into "1", "a" and "001b" into "001", "b" |
| Examples.CycleFirstStep | src/lib.rs:85-88 | "01" < "1a": the runs tie, "01" has no second segment, and the whole strings decide |
| Examples.CycleSecondStep | src/lib.rs:75-86 | "1a" < "001b": the runs tie and the second segments decide |
| Examples.CycleThirdStep | src/lib.rs:85-88 | "001b" < "01": the runs tie, "01" has no second segment, and the whole strings decide |
| Examples.CorrectedBreaksCycle | src/lib.rs:85-88 | the corrected comparator puts "01" before "001b", where `natural_cmp` puts it after |
| CorrectedCompare.CompareSegmentsByRank | src/lib.rs:77-82 | segments of different kinds compare by which side of the digits their first character lies |
| CorrectedCompare.CompareSegmentsChains | src/lib.rs:77-82 | the comparison of one pair of segments is a total preorder |
| CorrectedCompare.SegmentsCmpByFirstDifference | src/lib.rs:75-88 | comparing segmentations lexicographically is the first difference, or failing that the segment counts |
| CorrectedCompare.SegmentsCmpChains | src/lib.rs:75-83 | lexicographic comparison of segmentations is a total preorder |
| CorrectedCompare.NaturalCmpCorrectedIsThen | src/lib.rs:74-89 | the corrected comparator orders by segmentations first and by whole strings only on a tie |
| CorrectedCompare.NaturalCmpCorrectedTransitive | src/lib.rs:74-89 | the corrected comparator is transitive: Less and Equal chain through any middle string |
| CorrectedCompare.NaturalCmpCorrectedEqualIff | src/lib.rs:74-89 | the corrected comparator is Equal exactly for identical strings |
| CorrectedCompare.NaturalCmpCorrectedAntisymmetric | src/lib.rs:74-89 | swapping the arguments of the corrected comparator reverses it |
| CorrectedCompare.NaturalCmpCorrectedAgrees | src/lib.rs:85-88 | the correction changes only the case where every zipped pair ties and one segmentation is longer, which the shorter now wins; elsewhere it answers as `natural_cmp` |

## Left out

- **Byte offsets.** Rust `str` slicing and `find` work on UTF-8 byte offsets. The model indexes characters instead. Both cut at the same characters, and byte order of UTF-8 equals code-point order, so comparisons agree.
- **Laziness.** The iterator is lazy and `zip` stops at the shorter side. The model builds the whole segmentation; the results are the same.
- **Debug assertions.** The `debug_assert!`s of `cmp_digit_str` (lines 56-57) become its precondition. `natural_cmp` only ever passes digit runs.
- **Sorting.** `sort_by` in the tests is the standard library's sort and is not modelled. For the three strings of the sorting tests (lines 207-228), `Examples.SortTestOrder` shows that all three pairs are ordered consistently, and in reverse with the arguments swapped. So any sort of them with `natural_cmp` yields the order the tests expect, and any sort with the swapped comparator yields its reverse. For the long lists (lines 230-389) this consistency is not shown, and it cannot follow from antisymmetry alone, since `natural_cmp` is not transitive.
- **Long test lists.** The huge-number tests (lines 132-155) and the long alphanum and human-sort lists (lines 230-389) are not restated one by one. `DigitCompare.CmpDigitStrIsNumeric` and `NaturalCompare.NumericRunDecides` cover runs of any length.
- **Unicode digits.** They are not digits for `char::is_digit(10)`, and so they are not digits in the model either.
- **Transitivity of `natural_cmp`.** It is not proved because it is false (`Examples.NotTransitive`). Transitivity is proved for the corrected comparator only.

## Findings

| source | as written | input that shows it | evidently intended | confidence | as-written member | corrected member |
|---|---|---|---|---|---|---|
| src/lib.rs:85-88 | when every zipped pair ties, the whole strings are compared, even when one segmentation has more segments than the other | "01" < "1a", "1a" < "001b", "001b" < "01" | a total order: the tests sort with it through `slice::sort_by` (lines 211, 219, 226, 237, 279, 354), which requires one | high; not executed | Examples.NotTransitive | CorrectedCompare.NaturalCmpCorrectedTransitive |

In `CorrectedCompare.NaturalCmpCorrected`, when every zipped pair ties, the
string with fewer segments comes first. Only segmentations of equal length fall
back to the whole strings. This is the usual lexicographic rule for a proper
prefix, applied to segments. `CorrectedCompare.NaturalCmpCorrectedAgrees` shows
that nothing else changes.
