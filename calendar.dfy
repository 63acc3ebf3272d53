/**
 * Calendar dates as the application uses them: the proleptic Gregorian
 * calendar of Python's `datetime.date` and `wx.DateTime`, "today minus n
 * days" (`datetime.now() - timedelta(days=n)`), and the RFC 3339 `full-date`
 * text `YYYY-MM-DD` that both `strftime("%Y-%m-%d")` and `FormatISODate()`
 * produce and that the store keeps in its TEXT columns.
 */
module Calendar {
  import Decimal
  import Text

  datatype Date = Date(year: int, month: int, day: int)

  /** Leap years of the proleptic Gregorian calendar. */
  predicate IsLeapYear(y: int) {
    y % 4 == 0 && (y % 100 != 0 || y % 400 == 0)
  }

  function DaysInMonth(y: int, m: int): (n: int)
    requires 1 <= m <= 12
    ensures 28 <= n <= 31
    ensures n == 29 <==> m == 2 && IsLeapYear(y)
  {
    if m == 2 then (if IsLeapYear(y) then 29 else 28)
    else if m == 4 || m == 6 || m == 9 || m == 11 then 30
    else 31
  }

  /** Month and day are in range for the year (the year itself is not constrained). */
  predicate WellFormed(d: Date) {
    1 <= d.month <= 12 && 1 <= d.day <= DaysInMonth(d.year, d.month)
  }

  /** A date Python's `date` accepts and RFC 3339 spells with a four-digit year. */
  predicate IsValid(d: Date) {
    WellFormed(d) && 1 <= d.year <= 9999
  }

  /** Chronological order: by year, then month, then day. */
  predicate Before(a: Date, b: Date) {
    a.year < b.year || (a.year == b.year && (a.month < b.month || (a.month == b.month && a.day < b.day)))
  }

  predicate NotAfter(a: Date, b: Date) {
    a == b || Before(a, b)
  }

  lemma BeforeTrans(a: Date, b: Date, c: Date)
    requires Before(a, b) && Before(b, c)
    ensures Before(a, c)
  {
  }

  lemma NotAfterTrans(a: Date, b: Date, c: Date)
    requires NotAfter(a, b) && NotAfter(b, c)
    ensures NotAfter(a, c)
  {
  }

  lemma BeforeTotal(a: Date, b: Date)
    ensures Before(a, b) || a == b || Before(b, a)
  {
  }

  /** The calendar day before `d`. */
  function PrevDay(d: Date): (r: Date)
    requires WellFormed(d)
    ensures WellFormed(r) && Before(r, d)
    ensures r.year == d.year || (r.year == d.year - 1 && d.month == 1 && d.day == 1)
  {
    if d.day > 1 then d.(day := d.day - 1)
    else if d.month > 1 then Date(d.year, d.month - 1, DaysInMonth(d.year, d.month - 1))
    else Date(d.year - 1, 12, 31)
  }

  /** No date lies strictly between a day and the day before it. */
  lemma PrevDayAdjacent(d: Date, z: Date)
    requires WellFormed(d) && WellFormed(z)
    ensures !(Before(PrevDay(d), z) && Before(z, d))
  {
  }

  /** `d - timedelta(days=n)`. */
  function MinusDays(d: Date, n: nat): (r: Date)
    requires WellFormed(d)
    ensures WellFormed(r) && r.year <= d.year
  {
    if n == 0 then d else PrevDay(MinusDays(d, n - 1))
  }

  /** Going back further never lands on a later date. */
  lemma {:induction false} MinusDaysMonotone(d: Date, k: nat, n: nat)
    requires WellFormed(d) && k < n
    ensures Before(MinusDays(d, n), MinusDays(d, k))
    ensures MinusDays(d, n).year <= MinusDays(d, k).year
  {
    var a := MinusDays(d, n - 1);
    assert MinusDays(d, n) == PrevDay(a);
    if n - 1 > k {
      MinusDaysMonotone(d, k, n - 1);
      BeforeTrans(MinusDays(d, n), a, MinusDays(d, k));
    }
  }

  /** If the far end of a backwards walk from a valid date is valid, so is every date on the way. */
  lemma MinusDaysValid(d: Date, k: nat, n: nat)
    requires IsValid(d) && IsValid(MinusDays(d, n)) && k <= n
    ensures IsValid(MinusDays(d, k))
  {
    if k < n {
      MinusDaysMonotone(d, k, n);
    }
  }

  /**
   * The inclusive window `[today - n days, today]` holds exactly the dates
   * `today - k days` for `k` in `0..n`.
   */
  lemma {:induction false} WindowMembers(today: Date, n: nat, z: Date)
    requires IsValid(today) && IsValid(MinusDays(today, n)) && WellFormed(z)
    ensures NotAfter(MinusDays(today, n), z) && NotAfter(z, today)
        <==> exists k :: 0 <= k <= n && z == MinusDays(today, k)
  {
    if n > 0 {
      var p := MinusDays(today, n - 1);
      var q := MinusDays(today, n);
      assert q == PrevDay(p);
      MinusDaysValid(today, n - 1, n);
      WindowMembers(today, n - 1, z);
      WindowMembers(today, n - 1, p);
      assert NotAfter(p, today);
      if NotAfter(q, z) && NotAfter(z, today) {
        if z != q {
          PrevDayAdjacent(p, z);
          BeforeTotal(z, p);
          assert NotAfter(p, z);
          var k :| 0 <= k <= n - 1 && z == MinusDays(today, k);
        }
      }
      if exists k :: 0 <= k <= n && z == MinusDays(today, k) {
        var k :| 0 <= k <= n && z == MinusDays(today, k);
        if k < n {
          if k < n - 1 {
            MinusDaysMonotone(today, k, n - 1);
          }
          if k > 0 {
            MinusDaysMonotone(today, 0, k);
          }
          NotAfterTrans(q, p, z);
        } else {
          NotAfterTrans(q, p, today);
        }
      }
    }
  }

  /** The window's dates are pairwise different, so it spans exactly `n + 1` calendar days. */
  lemma WindowDistinct(today: Date, k1: nat, k2: nat)
    requires WellFormed(today) && k1 != k2
    ensures MinusDays(today, k1) != MinusDays(today, k2)
  {
    if k1 < k2 {
      MinusDaysMonotone(today, k1, k2);
    } else {
      MinusDaysMonotone(today, k2, k1);
    }
  }

  // ---------------------------------------------------------------------
  // RFC 3339 full-date text

  /** RFC 3339 `full-date`: four-digit year, two-digit month and day, joined by '-'. */
  function FullDate(d: Date): (s: string)
    requires IsValid(d)
    ensures |s| == 10 && s[4] == '-' && s[7] == '-'
  {
    Decimal.Padded(d.year, 4) + "-" + Decimal.Padded(d.month, 2) + "-" + Decimal.Padded(d.day, 2)
  }

  /**
   * Section 5.1 of RFC 3339: for these fixed-width strings, text order is
   * chronological order, so SQL comparisons on the TEXT column compare dates.
   */
  lemma FullDateOrder(a: Date, b: Date)
    requires IsValid(a) && IsValid(b)
    ensures Text.StrLe(FullDate(a), FullDate(b)) <==> NotAfter(a, b)
    ensures FullDate(a) == FullDate(b) <==> a == b
  {
    FullDateLe(a, b);
    FullDateEqual(a, b);
  }

  lemma FullDateEqual(a: Date, b: Date)
    requires IsValid(a) && IsValid(b)
    ensures FullDate(a) == FullDate(b) <==> a == b
  {
    if FullDate(a) == FullDate(b) {
      var fa, fb := FullDate(a), FullDate(b);
      assert fa[..4] == Decimal.Padded(a.year, 4) && fb[..4] == Decimal.Padded(b.year, 4);
      assert fa[5..7] == Decimal.Padded(a.month, 2) && fb[5..7] == Decimal.Padded(b.month, 2);
      assert fa[8..] == Decimal.Padded(a.day, 2) && fb[8..] == Decimal.Padded(b.day, 2);
      Decimal.PaddedInjective(a.year, b.year, 4);
      Decimal.PaddedInjective(a.month, b.month, 2);
      Decimal.PaddedInjective(a.day, b.day, 2);
    }
  }

  lemma FullDateLe(a: Date, b: Date)
    requires IsValid(a) && IsValid(b)
    ensures Text.StrLe(FullDate(a), FullDate(b)) <==> NotAfter(a, b)
  {
    assert Decimal.Pow10(2) == 100 && Decimal.Pow10(4) == 10000;
    assert a.day <= 31 && b.day <= 31;
    var ya, ma, da := Decimal.Padded(a.year, 4), Decimal.Padded(a.month, 2), Decimal.Padded(a.day, 2);
    var yb, mb, db := Decimal.Padded(b.year, 4), Decimal.Padded(b.month, 2), Decimal.Padded(b.day, 2);
    DashedLe(ya, ma, da, yb, mb, db);
    Text.PaddedOrder(a.year, b.year, 4);
    Text.PaddedOrder(a.month, b.month, 2);
    Text.PaddedOrder(a.day, b.day, 2);
    Decimal.PaddedInjective(a.year, b.year, 4);
    Decimal.PaddedInjective(a.month, b.month, 2);
  }

  /** Text order on `y-m-d` with fixed-width year and month fields: field by field. */
  lemma DashedLe(y1: string, m1: string, d1: string, y2: string, m2: string, d2: string)
    requires |y1| == |y2| && |m1| == |m2|
    ensures Text.StrLe(y1 + "-" + m1 + "-" + d1, y2 + "-" + m2 + "-" + d2) <==>
            (y1 != y2 && Text.StrLe(y1, y2))
            || (y1 == y2 && ((m1 != m2 && Text.StrLe(m1, m2)) || (m1 == m2 && Text.StrLe(d1, d2))))
  {
    var r1, r2 := m1 + ("-" + d1), m2 + ("-" + d2);
    assert Text.StrLe("-" + d1, "-" + d2) <==> Text.StrLe(d1, d2) by {
      Text.StrLeConcat("-", d1, "-", d2);
    }
    Text.StrLeConcat(m1, "-" + d1, m2, "-" + d2);
    assert Text.StrLe("-" + r1, "-" + r2) <==> Text.StrLe(r1, r2) by {
      Text.StrLeConcat("-", r1, "-", r2);
    }
    assert y1 + "-" + m1 + "-" + d1 == y1 + ("-" + r1);
    assert y2 + "-" + m2 + "-" + d2 == y2 + ("-" + r2);
    Text.StrLeConcat(y1, "-" + r1, y2, "-" + r2);
  }
}
