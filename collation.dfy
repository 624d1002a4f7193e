/** The two name orders the archive code sorts by, and the stable sort it
    relies on (`Array.prototype.sort`).

    `localeCompare(b, undefined, {numeric: true, sensitivity: 'base'})` is
    approximated by `NaturalOrder`: a name becomes a key of units, each
    maximal run of ASCII digits one `Number` unit holding its value, every
    other character one `Char` unit holding its ASCII-lower-cased code; keys
    are compared unit by unit, numbers by value, characters by code, a
    number before any character from `'0'` up, a shorter key first.
    The plain `localeCompare(b)` of the cover ranking is approximated the
    same way without grouping digits (`PlainKey`). */
module Collation {
  import opened Text
  import Sorting

  datatype Unit = Number(value: nat) | Char(code: int)

  predicate UnitLess(a: Unit, b: Unit) {
    match (a, b)
    case (Number(x), Number(y)) => x < y
    case (Char(c), Char(d)) => c < d
    case (Number(_), Char(d)) => d >= '0' as int
    case (Char(c), Number(_)) => c < '0' as int
  }

  /** Units form a strict total order. */
  lemma UnitLessIsStrictTotal(a: Unit, b: Unit, c: Unit)
    ensures !UnitLess(a, a)
    ensures a != b ==> UnitLess(a, b) || UnitLess(b, a)
    ensures UnitLess(a, b) ==> !UnitLess(b, a)
    ensures UnitLess(a, b) && UnitLess(b, c) ==> UnitLess(a, c)
  {
  }

  // ---- keys ----

  function PlainKey(s: string): (k: seq<Unit>)
    ensures |k| == |s|
    ensures forall i :: 0 <= i < |s| ==> k[i] == Char(LowerChar(s[i]) as int)
  {
    if s == [] then [] else [Char(LowerChar(s[0]) as int)] + PlainKey(s[1..])
  }

  /** Length of the run of digits that opens `s`. */
  function DigitRunLength(s: string): (n: nat)
    ensures n <= |s| && AllDigits(s[..n])
    ensures n < |s| ==> !IsDigit(s[n])
  {
    if s == [] || !IsDigit(s[0]) then 0
    else
      var n := 1 + DigitRunLength(s[1..]);
      assert s[..n] == [s[0]] + s[1..][..n - 1];
      n
  }

  function NaturalKey(s: string): seq<Unit>
    decreases |s|
  {
    if s == [] then []
    else if IsDigit(s[0]) then
      var n := DigitRunLength(s);
      [Number(ParseDecimal(s[..n]))] + NaturalKey(s[n..])
    else [Char(LowerChar(s[0]) as int)] + NaturalKey(s[1..])
  }

  /** Lexicographic comparison of keys: -1, 0 or 1. */
  function KeyCompare(a: seq<Unit>, b: seq<Unit>): int
  {
    if a == [] && b == [] then 0
    else if a == [] then -1
    else if b == [] then 1
    else if UnitLess(a[0], b[0]) then -1
    else if UnitLess(b[0], a[0]) then 1
    else KeyCompare(a[1..], b[1..])
  }

  lemma {:induction false} KeyCompareLaws(a: seq<Unit>, b: seq<Unit>)
    ensures KeyCompare(a, b) in {-1, 0, 1}
    ensures KeyCompare(a, b) == -KeyCompare(b, a)
    ensures KeyCompare(a, b) == 0 <==> a == b
  {
    if a != [] && b != [] {
      UnitLessIsStrictTotal(a[0], b[0], a[0]);
      KeyCompareLaws(a[1..], b[1..]);
      if a[0] == b[0] && a[1..] == b[1..] {
        assert a == [a[0]] + a[1..] && b == [b[0]] + b[1..];
      }
    }
  }

  lemma {:induction false} KeyCompareTransitive(a: seq<Unit>, b: seq<Unit>, c: seq<Unit>)
    requires KeyCompare(a, b) <= 0 && KeyCompare(b, c) <= 0
    ensures KeyCompare(a, c) <= 0
  {
    if a != [] && b != [] && c != [] {
      UnitLessIsStrictTotal(a[0], b[0], c[0]);
      UnitLessIsStrictTotal(a[0], c[0], b[0]);
      UnitLessIsStrictTotal(b[0], a[0], c[0]);
      UnitLessIsStrictTotal(c[0], b[0], a[0]);
      if !UnitLess(a[0], b[0]) && !UnitLess(b[0], c[0]) {
        KeyCompareTransitive(a[1..], b[1..], c[1..]);
      }
    }
  }

  // ---- the two comparators ----

  datatype Order = NaturalOrder | CoverFirstOrder

  /** `name.toLowerCase().includes('cover')`. */
  predicate IsCoverName(name: string) {
    Contains(Lower(name), "cover")
  }

  /** The comparator handed to `sort`: negative, zero or positive. */
  function Compare(o: Order, a: string, b: string): int
  {
    match o
    case NaturalOrder => KeyCompare(NaturalKey(a), NaturalKey(b))
    case CoverFirstOrder =>
      var aIsCover := IsCoverName(a);
      var bIsCover := IsCoverName(b);
      if aIsCover && !bIsCover then -1
      else if !aIsCover && bIsCover then 1
      else KeyCompare(PlainKey(a), PlainKey(b))
  }

  predicate Le(o: Order, a: string, b: string) {
    Compare(o, a, b) <= 0
  }

  /** Both comparators are consistent: `Le` is a total preorder. */
  lemma {:induction false} CompareIsTotalPreorder(o: Order, a: string, b: string, c: string)
    ensures Le(o, a, a)
    ensures Le(o, a, b) || Le(o, b, a)
    ensures Compare(o, a, b) == -Compare(o, b, a)
    ensures Le(o, a, b) && Le(o, b, c) ==> Le(o, a, c)
  {
    match o
    case NaturalOrder =>
      KeyCompareLaws(NaturalKey(a), NaturalKey(a));
      KeyCompareLaws(NaturalKey(a), NaturalKey(b));
      if Le(o, a, b) && Le(o, b, c) {
        KeyCompareTransitive(NaturalKey(a), NaturalKey(b), NaturalKey(c));
      }
    case CoverFirstOrder =>
      KeyCompareLaws(PlainKey(a), PlainKey(a));
      KeyCompareLaws(PlainKey(a), PlainKey(b));
      if Le(o, a, b) && Le(o, b, c) && IsCoverName(a) == IsCoverName(c) {
        KeyCompareTransitive(PlainKey(a), PlainKey(b), PlainKey(c));
      }
  }

  /** Names that compare equal. */
  predicate Equivalent(o: Order, a: string, b: string) {
    Le(o, a, b) && Le(o, b, a)
  }

  // ---- numeric runs ----

  lemma {:induction false} NaturalKeyOfDigitFree(p: string, rest: string)
    requires forall i :: 0 <= i < |p| ==> !IsDigit(p[i])
    ensures NaturalKey(p + rest) == PlainKey(p) + NaturalKey(rest)
  {
    if p != [] {
      assert (p + rest)[1..] == p[1..] + rest;
      NaturalKeyOfDigitFree(p[1..], rest);
    } else {
      assert p + rest == rest;
    }
  }

  lemma {:induction false} NaturalKeyOfNumber(d: string, rest: string)
    requires d != [] && AllDigits(d)
    requires rest == [] || !IsDigit(rest[0])
    ensures NaturalKey(d + rest) == [Number(ParseDecimal(d))] + NaturalKey(rest)
  {
    var s := d + rest;
    DigitRunLengthOfNumber(d, rest);
    assert s[..|d|] == d && s[|d|..] == rest;
  }

  lemma {:induction false} DigitRunLengthOfNumber(d: string, rest: string)
    requires AllDigits(d)
    requires rest == [] || !IsDigit(rest[0])
    ensures DigitRunLength(d + rest) == |d|
  {
    if d != [] {
      assert (d + rest)[1..] == d[1..] + rest;
      DigitRunLengthOfNumber(d[1..], rest);
    } else {
      assert d + rest == rest;
    }
  }

  lemma {:induction false} KeyCompareAfterCommonPrefix(p: seq<Unit>, a: seq<Unit>, b: seq<Unit>)
    ensures KeyCompare(p + a, p + b) == KeyCompare(a, b)
  {
    if p != [] {
      UnitLessIsStrictTotal(p[0], p[0], p[0]);
      assert (p + a)[1..] == p[1..] + a && (p + b)[1..] == p[1..] + b;
      KeyCompareAfterCommonPrefix(p[1..], a, b);
    } else {
      assert p + a == a && p + b == b;
    }
  }

  /** Under the natural order, names that differ only in one number are
      ordered by that number's value, not by its digits: `page2` comes
      before `page10`. */
  lemma {:induction false} NumbersCompareByValue(p: string, m: string, n: string, rest: string)
    requires forall i :: 0 <= i < |p| ==> !IsDigit(p[i])
    requires m != [] && AllDigits(m) && n != [] && AllDigits(n)
    requires rest == [] || !IsDigit(rest[0])
    requires ParseDecimal(m) < ParseDecimal(n)
    ensures Compare(NaturalOrder, p + m + rest, p + n + rest) == -1
  {
    var x, y := p + m + rest, p + n + rest;
    assert x == p + (m + rest) && y == p + (n + rest);
    NaturalKeyOfDigitFree(p, m + rest);
    NaturalKeyOfDigitFree(p, n + rest);
    NaturalKeyOfNumber(m, rest);
    NaturalKeyOfNumber(n, rest);
    var tail := NaturalKey(rest);
    var a, b := [Number(ParseDecimal(m))] + tail, [Number(ParseDecimal(n))] + tail;
    assert NaturalKey(x) == PlainKey(p) + a;
    assert NaturalKey(y) == PlainKey(p) + b;
    KeyCompareAfterCommonPrefix(PlainKey(p), a, b);
    assert KeyCompare(a, b) == -1;
  }

  /** `Le(o)` as a value, for the generic sort. */
  function LeOf(o: Order): (string, string) -> bool {
    (a: string, b: string) => Le(o, a, b)
  }

  lemma {:induction false} LeOfIsTotalPreorder(o: Order)
    ensures Sorting.TotalPreorder(LeOf(o))
  {
    forall a: string, b: string, c: string
      ensures LeOf(o)(a, a) && (LeOf(o)(a, b) || LeOf(o)(b, a))
      ensures LeOf(o)(a, b) && LeOf(o)(b, c) ==> LeOf(o)(a, c)
    {
      CompareIsTotalPreorder(o, a, b, c);
    }
  }

  /** `names.sort(comparator)` for the comparator `o`. */
  function SortNames(o: Order, names: seq<string>): (r: seq<string>)
    ensures multiset(r) == multiset(names)
  {
    Sorting.Sort(LeOf(o), names)
  }

  lemma Page2BeforePage10()
    ensures Compare(NaturalOrder, "page2.jpg", "page10.jpg") == -1
  {
    assert ParseDecimal("2") == 2 by { assert "2"[..0] == ""; }
    assert ParseDecimal("10") == 10 by { assert "10"[..1] == "1" && "1"[..0] == ""; }
    NumbersCompareByValue("page", "2", "10", ".jpg");
    assert "page" + "2" + ".jpg" == "page2.jpg" && "page" + "10" + ".jpg" == "page10.jpg";
  }

  /** `page2.jpg` sorts before `page10.jpg`, whatever order they come in. */
  lemma NaturalSortExample()
    ensures SortNames(NaturalOrder, ["page10.jpg", "page2.jpg"]) == ["page2.jpg", "page10.jpg"]
  {
    Page2BeforePage10();
    CompareIsTotalPreorder(NaturalOrder, "page2.jpg", "page10.jpg", "page2.jpg");
    Sorting.SortPair(LeOf(NaturalOrder), "page10.jpg", "page2.jpg");
  }
}
