/**
 * The date helpers `f.short`, `f.long` and `sortByDate` (identical in
 * `scripts/helpers.js` and `build/helpers.js`). A JavaScript `Date` is
 * modelled by its UTC calendar date; `None` is a missing (falsy) value.
 */
module Dates {
  import opened Util
  import opened Sorting

  /** A year, month (1..12) and day of the month. */
  datatype Ymd = Ymd(year: int, month: int, day: int)

  /** A calendar date inside the range a JavaScript `Date` can hold. */
  predicate ValidDate(d: Ymd) {
    -271821 <= d.year <= 275760 && 1 <= d.month <= 12 && 1 <= d.day <= 31
  }

  /** The UTC calendar date of a JavaScript `Date`. */
  type Date = d: Ymd | ValidDate(d) witness Ymd(1970, 1, 1)

  const Months: seq<string> := [
    "January", "February", "March", "April", "May", "June",
    "July", "August", "September", "October", "November", "December"
  ]

  function MonthName(m: int): (name: string)
    requires 1 <= m <= 12
    ensures name in Months && ' ' !in name
  {
    Months[m - 1]
  }

  function Pow10(w: nat): nat {
    if w == 0 then 1 else 10 * Pow10(w - 1)
  }

  /** `n` in exactly `w` decimal digits, zero-padded on the left. */
  function PadDigits(n: nat, w: nat): (s: string)
    ensures |s| == w && IsDigits(s)
  {
    if w == 0 then "" else PadDigits(n / 10, w - 1) + [DigitChar(n % 10)]
  }

  lemma {:induction false} PadDigitsValue(n: nat, w: nat)
    requires n < Pow10(w)
    ensures DigitsValue(PadDigits(n, w)) == n
  {
    if w > 0 {
      var s := PadDigits(n, w);
      assert s[..|s| - 1] == PadDigits(n / 10, w - 1);
      PadDigitsValue(n / 10, w - 1);
    }
  }

  /** The year field of `toISOString`: four digits, or a sign and six digits outside 0..9999. */
  function YearString(y: int): string
    requires -1000000 < y < 1000000
  {
    if 0 <= y <= 9999 then PadDigits(y, 4)
    else if y > 9999 then "+" + PadDigits(y, 6)
    else "-" + PadDigits(-y, 6)
  }

  /** The date part of `toISOString()`: what comes before the `T`. */
  function IsoDate(d: Date): string {
    YearString(d.year) + "-" + PadDigits(d.month, 2) + "-" + PadDigits(d.day, 2)
  }

  function ParseYear(ys: string): Option<int> {
    if |ys| == 4 && IsDigits(ys) then Some(DigitsValue(ys))
    else if |ys| == 7 && ys[0] == '+' && IsDigits(ys[1..]) then Some(DigitsValue(ys[1..]))
    else if |ys| == 7 && ys[0] == '-' && IsDigits(ys[1..]) then
      var y: int := 0 - DigitsValue(ys[1..]) as int;
      Some(y)
    else None
  }

  /** Reads a `YYYY-MM-DD` (or `±YYYYYY-MM-DD`) string back into a date. */
  function ParseShort(s: string): Option<Ymd> {
    if |s| < 10 then None
    else
      var n := |s|;
      var mm, dd := s[n - 5..n - 3], s[n - 2..];
      if s[n - 6] != '-' || s[n - 3] != '-' || !IsDigits(mm) || !IsDigits(dd) then None
      else match ParseYear(s[..n - 6])
        case None => None
        case Some(y) => Some(Ymd(y, DigitsValue(mm), DigitsValue(dd)))
  }

  lemma YearParses(y: int)
    requires -1000000 < y < 1000000
    ensures ParseYear(YearString(y)) == Some(y)
  {
    var ys := YearString(y);
    if 0 <= y <= 9999 {
      PadDigitsValue(y, 4);
    } else if y > 9999 {
      assert ys[1..] == PadDigits(y, 6);
      PadDigitsValue(y, 6);
    } else {
      assert ys[1..] == PadDigits(-y, 6);
      PadDigitsValue(-y, 6);
    }
  }

  lemma ShortParses(d: Date)
    ensures ParseShort(IsoDate(d)) == Some(d)
  {
    var ys, mm, dd := YearString(d.year), PadDigits(d.month, 2), PadDigits(d.day, 2);
    var s := IsoDate(d);
    var n := |s|;
    assert s == ys + "-" + mm + "-" + dd;
    assert s[..n - 6] == ys && s[n - 5..n - 3] == mm && s[n - 2..] == dd;
    assert s[n - 6] == '-' && s[n - 3] == '-';
    PadDigitsValue(d.month, 2);
    PadDigitsValue(d.day, 2);
    YearParses(d.year);
  }

  /** `f.short(value)`: the ISO date, or `undefined` for a falsy value. */
  function Short(v: Option<Date>): (r: Option<string>)
    ensures v.None? <==> r.None?
    ensures r.Some? ==> ParseShort(r.value) == Some(v.value)
    ensures r.Some? && 0 <= v.value.year <= 9999 ==> |r.value| == 10 && r.value[4] == '-' && r.value[7] == '-'
  {
    match v
    case None => None
    case Some(d) =>
      ShortParses(d);
      Some(IsoDate(d))
  }

  /** `f.long(value)`: `<Month> <day>, <year>` with an unpadded day, or `undefined` for a falsy value. */
  function Long(v: Option<Date>): (r: Option<string>)
    ensures v.None? <==> r.None?
    ensures r.Some? ==>
      Split(r.value, ' ') == [MonthName(v.value.month), NatToString(v.value.day) + ",", IntToString(v.value.year)]
  {
    match v
    case None => None
    case Some(d) =>
      LongFields(d);
      Some(MonthName(d.month) + " " + NatToString(d.day) + ", " + IntToString(d.year))
  }

  lemma LongFields(d: Date)
    ensures Split(MonthName(d.month) + " " + NatToString(d.day) + ", " + IntToString(d.year), ' ')
      == [MonthName(d.month), NatToString(d.day) + ",", IntToString(d.year)]
  {
    var m, dd, y := MonthName(d.month), NatToString(d.day), IntToString(d.year);
    assert ' ' !in y;
    assert ' ' !in dd + ",";
    assert m + " " + dd + ", " + y == m + [' '] + ((dd + ",") + [' '] + y);
    SplitFirst(m, ' ', (dd + ",") + [' '] + y);
    SplitFirst(dd + ",", ' ', y);
    SplitNoSep(y, ' ');
  }

  /** Chronological order of calendar dates. */
  predicate Before(a: Ymd, b: Ymd) {
    a.year < b.year || (a.year == b.year && (a.month < b.month || (a.month == b.month && a.day < b.day)))
  }

  /** A number that orders dates as their time values (`+date`) do. */
  function DayNumber(d: Ymd): int {
    d.year * 372 + (d.month - 1) * 31 + (d.day - 1)
  }

  lemma DayNumberOrder(a: Date, b: Date)
    ensures DayNumber(a) < DayNumber(b) <==> Before(a, b)
    ensures DayNumber(a) == DayNumber(b) <==> a == b
  {
  }

  /**
   * The comparator `(a, b) => +b[key] - +a[key]`: positive when `b` is later.
   * `None` stands for an `undefined` date, which makes the difference NaN,
   * and sorting treats NaN as 0.
   */
  function DateCmp<T>(key: T -> Option<Date>): (T, T) -> int {
    (a: T, b: T) => if key(a).Some? && key(b).Some? then DayNumber(key(b).value) - DayNumber(key(a).value) else 0
  }

  /** Every element has a date under `key`. */
  predicate AllDated<T>(xs: seq<T>, key: T -> Option<Date>) {
    forall k :: 0 <= k < |xs| ==> key(xs[k]).Some?
  }

  /** Every element is dated, and no element is earlier than one after it. */
  predicate LatestFirst<T>(xs: seq<T>, key: T -> Option<Date>) {
    AllDated(xs, key)
    && forall i, j :: 0 <= i < j < |xs| ==> DayNumber(key(xs[j]).value) <= DayNumber(key(xs[i]).value)
  }

  /** `sortByDate(articles, key)`: a sorted copy, latest first. */
  function SortByDate<T(!new)>(xs: seq<T>, key: T -> Option<Date>): (r: seq<T>)
    ensures multiset(r) == multiset(xs)
    ensures AllDated(xs, key) ==> LatestFirst(r, key)
  {
    var r := InsertionSort(xs, DateCmp(key));
    if AllDated(xs, key) then
      SortByDateDescending(xs, key);
      r
    else r
  }

  lemma DateCmpAsymmetric<T(!new)>(key: T -> Option<Date>)
    ensures Asymmetric(DateCmp(key))
  {
  }

  lemma AllDatedPermutation<T>(xs: seq<T>, r: seq<T>, key: T -> Option<Date>)
    requires AllDated(xs, key) && multiset(r) == multiset(xs)
    ensures AllDated(r, key)
  {
    forall k | 0 <= k < |r|
      ensures key(r[k]).Some?
    {
      assert r[k] in multiset(xs);
    }
  }

  lemma SortByDateDescending<T(!new)>(xs: seq<T>, key: T -> Option<Date>)
    requires AllDated(xs, key)
    ensures LatestFirst(InsertionSort(xs, DateCmp(key)), key)
  {
    var r := InsertionSort(xs, DateCmp(key));
    DateCmpAsymmetric(key);
    AllDatedPermutation(xs, r, key);
    SortedIsLatestFirst(r, key);
  }

  /** Dated entries in comparator order are latest first. */
  lemma SortedIsLatestFirst<T>(r: seq<T>, key: T -> Option<Date>)
    requires AllDated(r, key) && AdjacentSorted(r, DateCmp(key))
    ensures LatestFirst(r, key)
  {
    var ks := seq(|r|, k requires 0 <= k < |r| => DayNumber(key(r[k]).value));
    forall k | 0 <= k < |ks| - 1
      ensures ks[k] >= ks[k + 1]
    {
      assert DateCmp(key)(r[k], r[k + 1]) <= 0;
    }
    forall i, j | 0 <= i < j < |r|
      ensures DayNumber(key(r[j]).value) <= DayNumber(key(r[i]).value)
    {
      AdjacentNonIncreasing(ks, i, j);
    }
  }
}
