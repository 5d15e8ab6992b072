/** Character classification, searching and ordering on strings.

    A Rust `&str` is modelled as the sequence of its Unicode scalar values.
    Byte-wise comparison of UTF-8 encodings orders strings exactly as
    comparison of their scalar sequences does, so `str::cmp` becomes the
    lexicographic comparison `LexCmp` below, and the byte offsets returned
    by `str::find` become positions in the scalar sequence. */
module Text {
  import opened Options
  import opened Orderings

  /** `char::is_digit(10)`: only the ASCII digits '0'..'9'. */
  predicate IsDigit(c: char) {
    '0' <= c <= '9'
  }

  predicate AllDigits(s: seq<char>) {
    forall i :: 0 <= i < |s| ==> IsDigit(s[i])
  }

  predicate NoDigits(s: seq<char>) {
    forall i :: 0 <= i < |s| ==> !IsDigit(s[i])
  }

  /** The position of the first character satisfying `p`, as computed by
      `str::find` with a closure and by `Chars::position`. */
  function Position(s: seq<char>, p: char -> bool): (r: Option<nat>)
    ensures r.Some? ==> r.value < |s| && p(s[r.value])
    ensures r.Some? ==> forall j :: 0 <= j < r.value ==> !p(s[j])
    ensures r.None? ==> forall j :: 0 <= j < |s| ==> !p(s[j])
    decreases |s|
  {
    if |s| == 0 then None
    else if p(s[0]) then Some(0)
    else
      match Position(s[1..], p)
      case None => None
      case Some(k) => Some(k + 1)
  }

  /** `Ord::cmp` on `str`: lexicographic comparison, where a proper prefix
      is smaller than the longer string. It reports Equal exactly for
      identical strings; `LexCmpMeaning` states the other two outcomes. */
  function LexCmp(a: seq<char>, b: seq<char>): (r: Ordering)
    ensures r == Equal <==> a == b
    decreases |a|
  {
    if |a| == 0 && |b| == 0 then Equal
    else if |a| == 0 then Less
    else if |b| == 0 then Greater
    else if a[0] < b[0] then Less
    else if b[0] < a[0] then Greater
    else LexCmp(a[1..], b[1..])
  }

  /** The textbook definition of "a comes strictly before b": either a is
      a proper prefix of b, or the first position where they differ holds
      a smaller character in a. */
  ghost predicate LexLess(a: seq<char>, b: seq<char>) {
    (|a| < |b| && a == b[..|a|])
    || exists k :: 0 <= k < |a| && k < |b| && a[..k] == b[..k] && a[k] < b[k]
  }

  /** Stripping one common first character does not change which string
      comes first. */
  lemma LexLessTail(a: seq<char>, b: seq<char>)
    requires |a| > 0 && |b| > 0 && a[0] == b[0]
    ensures LexLess(a, b) <==> LexLess(a[1..], b[1..])
  {
    var a', b' := a[1..], b[1..];
    if LexLess(a, b) {
      if |a| < |b| && a == b[..|a|] {
        assert a' == b'[..|a'|];
      } else {
        var k :| 0 <= k < |a| && k < |b| && a[..k] == b[..k] && a[k] < b[k];
        assert k != 0;
        assert a'[..k - 1] == a[1..k] == b[1..k] == b'[..k - 1];
        assert a'[k - 1] < b'[k - 1];
      }
    }
    if LexLess(a', b') {
      if |a'| < |b'| && a' == b'[..|a'|] {
        assert a == [a[0]] + a' == [b[0]] + b'[..|a'|] == b[..|a|];
      } else {
        var k :| 0 <= k < |a'| && k < |b'| && a'[..k] == b'[..k] && a'[k] < b'[k];
        assert a[..k + 1] == [a[0]] + a'[..k] == [b[0]] + b'[..k] == b[..k + 1];
        assert a[k + 1] < b[k + 1];
      }
    }
  }

  /** When the first characters differ, the smaller one puts its string
      first, and not the other way round. */
  lemma LexLessHead(a: seq<char>, b: seq<char>)
    requires |a| > 0 && |b| > 0 && a[0] < b[0]
    ensures LexLess(a, b) && !LexLess(b, a)
  {
    assert a[..0] == b[..0];
  }

  /** `LexCmp` agrees with the reference order `LexLess` in all three
      outcomes. */
  lemma {:induction false} LexCmpMeaning(a: seq<char>, b: seq<char>)
    ensures LexCmp(a, b) == Less <==> LexLess(a, b)
    ensures LexCmp(a, b) == Equal <==> a == b
    ensures LexCmp(a, b) == Greater <==> LexLess(b, a)
    decreases |a|
  {
    if |a| == 0 && |b| == 0 {
    } else if |a| == 0 {
      assert a == b[..0];
    } else if |b| == 0 {
      assert b == a[..0];
    } else if a[0] < b[0] {
      LexLessHead(a, b);
    } else if b[0] < a[0] {
      LexLessHead(b, a);
    } else {
      LexCmpMeaning(a[1..], b[1..]);
      LexLessTail(a, b);
      LexLessTail(b, a);
      if a[1..] == b[1..] {
        assert a == [a[0]] + a[1..] == [b[0]] + b[1..] == b;
      }
    }
  }

  /** Swapping the arguments of `LexCmp` reverses its result. */
  lemma {:induction false} LexCmpAntisymmetric(a: seq<char>, b: seq<char>)
    ensures LexCmp(b, a) == Reverse(LexCmp(a, b))
    decreases |a|
  {
    if |a| > 0 && |b| > 0 && a[0] == b[0] {
      LexCmpAntisymmetric(a[1..], b[1..]);
    }
  }

  /** `LexCmp` is transitive. */
  lemma {:induction false} LexCmpTransitive(a: seq<char>, b: seq<char>, c: seq<char>)
    requires LexCmp(a, b) == Less && LexCmp(b, c) == Less
    ensures LexCmp(a, c) == Less
    decreases |a|
  {
    if |a| > 0 && |b| > 0 && |c| > 0 && a[0] == b[0] == c[0] {
      LexCmpTransitive(a[1..], b[1..], c[1..]);
    }
  }

  /** `LexCmp` is a total order: its outcomes chain. */
  lemma LexCmpChains(a: seq<char>, b: seq<char>, c: seq<char>)
    ensures Chains(LexCmp(a, b), LexCmp(b, c), LexCmp(a, c))
  {
    LexCmpMeaning(a, b);
    LexCmpMeaning(b, c);
    LexCmpAntisymmetric(a, b);
    LexCmpAntisymmetric(b, c);
    LexCmpAntisymmetric(a, c);
    if LexCmp(a, b) == Less && LexCmp(b, c) == Less {
      LexCmpTransitive(a, b, c);
    } else if LexCmp(a, b) == Greater && LexCmp(b, c) == Greater {
      LexCmpTransitive(c, b, a);
    }
  }

  /** Strings whose first characters differ are ordered by those
      characters alone. */
  lemma LexCmpFirstCharacter(a: seq<char>, b: seq<char>)
    requires |a| > 0 && |b| > 0 && a[0] != b[0]
    ensures LexCmp(a, b) == if a[0] < b[0] then Less else Greater
  {
  }
}
