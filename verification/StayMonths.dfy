/** Counting the months between two dates given as text, and the laws a comparison of stay and lease relies on. */
module StayMonths {
  import opened Integers
  import opened Options
  import opened Texts

  datatype Date = Date(year: int, month: int, day: int)

  // ---------------------------------------------------------------- calendar dates and their text

  predicate Leap(year: int) { year % 4 == 0 && (year % 100 != 0 || year % 400 == 0) }

  function DaysIn(year: int, month: int): int {
    if month == 2 then (if Leap(year) then 29 else 28)
    else if month == 4 || month == 6 || month == 9 || month == 11 then 30
    else 31
  }

  predicate Valid(d: Date) {
    0 <= d.year <= 9999 && 1 <= d.month <= 12 && 1 <= d.day <= DaysIn(d.year, d.month)
  }

  function DigitValue(c: char): (n: int)
    requires IsDigit(c)
    ensures 0 <= n <= 9
  {
    c as int - '0' as int
  }

  predicate DateShape(s: string) {
    |s| == 10 && s[4] == '-' && s[7] == '-'
    && forall i :: 0 <= i < 10 && i != 4 && i != 7 ==> IsDigit(s[i])
  }

  function Pair(s: string, i: nat): int
    requires i + 2 <= |s| && IsDigit(s[i]) && IsDigit(s[i + 1])
  {
    DigitValue(s[i]) * 10 + DigitValue(s[i + 1])
  }

  function DateOf(s: string): Date
    requires DateShape(s)
  {
    Date(Pair(s, 0) * 100 + Pair(s, 2), Pair(s, 5), Pair(s, 8))
  }

  /** The date a text stands for; None when it has another shape or names no day of the calendar. */
  function DateValue(s: string): Option<Date> {
    if DateShape(s) && Valid(DateOf(s)) then Some(DateOf(s)) else None
  }

  /** Comparison of strings, code unit by code unit. */
  predicate TextBefore(a: string, b: string) {
    b != "" && (a == "" || a[0] < b[0] || (a[0] == b[0] && TextBefore(a[1..], b[1..])))
  }

  predicate DateBefore(a: Date, b: Date) {
    a.year < b.year || (a.year == b.year && (a.month < b.month || (a.month == b.month && a.day < b.day)))
  }

  predicate UpTo(a: Date, b: Date) { !DateBefore(b, a) }

  /** Texts that agree on their first i characters are compared from there on. */
  lemma {:induction false} BeforeAfterPrefix(a: string, b: string, i: nat)
    requires i <= |a| && i <= |b| && a[..i] == b[..i]
    ensures TextBefore(a, b) <==> TextBefore(a[i..], b[i..])
    decreases i
  {
    if i > 0 {
      assert a[0] == a[..i][0] && b[0] == b[..i][0];
      assert a[1..][..i - 1] == a[..i][1..] && b[1..][..i - 1] == b[..i][1..];
      BeforeAfterPrefix(a[1..], b[1..], i - 1);
      assert a[1..][i - 1..] == a[i..] && b[1..][i - 1..] == b[i..];
    } else {
      assert a[0..] == a && b[0..] == b;
    }
  }

  function FirstDifference(a: string, b: string, i: nat): (k: nat)
    requires |a| == |b| && i <= |a|
    ensures i <= k <= |a| && a[i..k] == b[i..k] && (k < |a| ==> a[k] != b[k])
    decreases |a| - i
  {
    if i == |a| || a[i] != b[i] then i
    else
      var k := FirstDifference(a, b, i + 1);
      assert a[i..k] == [a[i]] + a[i + 1..k] && b[i..k] == [b[i]] + b[i + 1..k];
      k
  }

  /** Date texts compare as the dates do, so the order tests on the texts are tests on the calendar. */
  lemma TextOrderIsDateOrder(a: string, b: string)
    requires DateShape(a) && DateShape(b)
    ensures TextBefore(a, b) <==> DateBefore(DateOf(a), DateOf(b))
  {
    var k := FirstDifference(a, b, 0);
    assert a[..k] == b[..k];
    BeforeAfterPrefix(a, b, k);
    forall i | 0 <= i < k ensures a[i] == b[i] { assert a[..k][i] == b[..k][i]; }
    if k < 10 {
      assert a[k..][0] == a[k] && b[k..][0] == b[k];
      assert TextBefore(a, b) <==> a[k] < b[k];
      hide TextBefore;
      EarlierDigitDecides(a, b, k);
      EarlierDigitDecides(b, a, k);
    } else {
      assert a == b;
    }
  }

  lemma EarlierDigitDecides(a: string, b: string, k: nat)
    requires DateShape(a) && DateShape(b) && k < 10 && forall i :: 0 <= i < k ==> a[i] == b[i]
    ensures a[k] < b[k] ==> DateBefore(DateOf(a), DateOf(b)) && !DateBefore(DateOf(b), DateOf(a))
  {
  }

  // ---------------------------------------------------------------- counting

  /** Months begun from one date to another, at least one. */
  function Months(from: Date, to: Date): int {
    Max(1, (to.year - from.year) * 12 + to.month - from.month + if to.day > from.day then 1 else 0)
  }

  function MonthCount(start: string, end: string): Option<int> {
    if DateValue(start).None? || DateValue(end).None? || TextBefore(end, start) then None
    else Some(Months(DateValue(start).value, DateValue(end).value))
  }

  /** There is a count exactly for two calendar dates in order. */
  lemma CountedExactlyInOrder(start: string, end: string)
    ensures MonthCount(start, end).Some?
      <==> DateValue(start).Some? && DateValue(end).Some? && UpTo(DateValue(start).value, DateValue(end).value)
    ensures MonthCount(start, end).Some? ==> MonthCount(start, end).value >= 1
  {
    if DateValue(start).Some? && DateValue(end).Some? { TextOrderIsDateOrder(end, start); }
    hide TextBefore, DateOf, DateShape;
  }

  /** A count never falls when the stay begins earlier or ends later. */
  lemma MonthsGrow(a: Date, b: Date, b': Date, c: Date)
    requires Valid(a) && Valid(b) && Valid(b') && Valid(c) && UpTo(a, b) && UpTo(b, b') && UpTo(b', c)
    ensures Months(b, b') <= Months(a, b') <= Months(a, c)
    ensures Months(b, b') <= Months(b, c) <= Months(a, c)
  {
  }

  /** Splitting a stay counts at most one month twice, and none is lost. */
  lemma MonthsSplit(a: Date, b: Date, c: Date)
    requires Valid(a) && Valid(b) && Valid(c) && UpTo(a, b) && UpTo(b, c)
    ensures Months(a, b) + Months(b, c) - 1 <= Months(a, c) <= Months(a, b) + Months(b, c)
  {
  }

  /** The same day n calendar months later, which need not be a day of that month. */
  function MonthsLater(d: Date, n: nat): Date {
    var month := d.month - 1 + n;
    Date(d.year + month / 12, month % 12 + 1, d.day)
  }

  /** The count is the least number of months, at least one, that reaches the end date. */
  lemma CountIsLeast(a: Date, b: Date, n: nat)
    requires Valid(a) && Valid(b) && UpTo(a, b) && n >= 1
    ensures Months(a, b) <= n <==> UpTo(b, MonthsLater(a, n))
  {
    var month := a.month - 1 + n;
    assert month == month / 12 * 12 + month % 12;
  }

  // ---------------------------------------------------------------- stay and lease

  /** The months of a lease beyond those of the stay; zero while either count is missing. */
  function Overhang(stay: Option<int>, lease: Option<int>): int {
    if stay.Some? && lease.Some? && lease.value > stay.value then lease.value - stay.value else 0
  }

  function OverhangCost(stay: Option<int>, lease: Option<int>, rent: nat): int { Overhang(stay, lease) * rent }

  /**
   A lease within the stay hangs over by nothing; one that only ends later hangs over by no more than the months
   after the stay.
   */
  lemma OverhangOfLease(stayStart: string, stayEnd: string, leaseStart: string, leaseEnd: string, rent: nat)
    requires MonthCount(stayStart, stayEnd).Some? && MonthCount(leaseStart, leaseEnd).Some?
    requires !TextBefore(leaseStart, stayStart)
    ensures var (stay, lease) := (MonthCount(stayStart, stayEnd), MonthCount(leaseStart, leaseEnd));
      && (!TextBefore(stayEnd, leaseEnd) ==> Overhang(stay, lease) == 0 && OverhangCost(stay, lease, rent) == 0)
      && (!TextBefore(leaseEnd, stayEnd) ==>
            && MonthCount(stayEnd, leaseEnd).Some?
            && Overhang(stay, lease) <= MonthCount(stayEnd, leaseEnd).value)
  {
    CountedExactlyInOrder(stayStart, stayEnd);
    CountedExactlyInOrder(leaseStart, leaseEnd);
    TextOrderIsDateOrder(leaseStart, stayStart);
    TextOrderIsDateOrder(stayEnd, leaseEnd);
    TextOrderIsDateOrder(leaseEnd, stayEnd);
    var (ss, se) := (DateOf(stayStart), DateOf(stayEnd));
    var (ls, le) := (DateOf(leaseStart), DateOf(leaseEnd));
    hide TextBefore, DateOf, DateShape;
    if UpTo(le, se) {
      MonthsGrow(ss, ls, le, se);
    }
    if UpTo(se, le) {
      LaterLease(ss, se, ls, le);
    }
  }

  /** The overhang is the least number of months that, added to those of the stay, takes the lease to its end. */
  lemma OverhangIsLeast(stayStart: string, stayEnd: string, leaseStart: string, leaseEnd: string, n: nat)
    requires MonthCount(stayStart, stayEnd).Some? && MonthCount(leaseStart, leaseEnd).Some?
    ensures var (stay, lease) := (MonthCount(stayStart, stayEnd), MonthCount(leaseStart, leaseEnd));
      Overhang(stay, lease) <= n <==>
      UpTo(DateValue(leaseEnd).value, MonthsLater(DateValue(leaseStart).value, stay.value + n))
  {
    CountedExactlyInOrder(stayStart, stayEnd);
    CountedExactlyInOrder(leaseStart, leaseEnd);
    hide Months, MonthsLater, DateOf, DateShape, Valid, TextBefore;
    CountIsLeast(DateValue(leaseStart).value, DateValue(leaseEnd).value, MonthCount(stayStart, stayEnd).value + n);
  }

  /** The months between two dates as their fields give them, when the end lies past the start's day of its month. */
  function FieldMonths(a: Date, b: Date): int {
    (b.year * 12 + b.month) - (a.year * 12 + a.month) + (if b.day > a.day then 1 else 0)
  }

  /**
   A longer lease hangs over by exactly the months its own dates span beyond the stay, each of which costs one rent; a
   missing date, or a lease no longer than the stay, costs nothing.
   */
  lemma OverhangOfLongerLease(stayStart: string, stayEnd: string, leaseStart: string, leaseEnd: string, rent: nat)
    ensures var (stay, lease) := (MonthCount(stayStart, stayEnd), MonthCount(leaseStart, leaseEnd));
      if stay.None? || lease.None? then OverhangCost(stay, lease, rent) == 0
      else
        var (ss, se) := (DateValue(stayStart).value, DateValue(stayEnd).value);
        var (ls, le) := (DateValue(leaseStart).value, DateValue(leaseEnd).value);
        var beyond := FieldMonths(ls, le) - Max(1, FieldMonths(ss, se));
        OverhangCost(stay, lease, rent) == if beyond > 0 then beyond * rent else 0
  {
    CountedExactlyInOrder(stayStart, stayEnd);
    CountedExactlyInOrder(leaseStart, leaseEnd);
    hide DateValue, TextBefore;
  }

  lemma ExampleDates()
    ensures DateValue("2026-01-15") == Some(Date(2026, 1, 15))
    ensures DateValue("2026-07-15") == Some(Date(2026, 7, 15))
    ensures DateValue("2027-01-15") == Some(Date(2027, 1, 15))
  {
  }

  /** A lease of twelve months over a stay of six costs six rents after the stay. */
  lemma SixRents(rent: nat)
    ensures var (stay, lease) := (MonthCount("2026-01-15", "2026-07-15"), MonthCount("2026-01-15", "2027-01-15"));
      stay == Some(6) && lease == Some(12) && OverhangCost(stay, lease, rent) == 6 * rent
  {
    hide TextBefore, DateValue;
    ExampleDates();
    CountedExactlyInOrder("2026-01-15", "2026-07-15");
    CountedExactlyInOrder("2026-01-15", "2027-01-15");
  }

  lemma LaterLease(ss: Date, se: Date, ls: Date, le: Date)
    requires Valid(ss) && Valid(se) && Valid(ls) && Valid(le) && UpTo(ss, se) && UpTo(ls, le) && UpTo(ss, ls)
      && UpTo(se, le)
    ensures Months(ls, le) <= Months(ss, se) + Months(se, le)
  {
    MonthsSplit(ss, se, le);
    MonthsGrow(ss, ls, le, le);
  }
}
