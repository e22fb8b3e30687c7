/**
  Date bounds as the pipeline uses them. The source adapters compare
  `YYYY-MM-DD` strings lexicographically against optional bounds; the
  legacy crawlers compare calendar dates and print them with
  `strftime("%Y-%m-%d")`. This module holds both filters and proves that
  on zero-padded dates the string order is the calendar order.
 */
module Dates {
  import opened Wrappers
  import opened Text

  // ---------------------------------------------------------------------------
  // String bounds (sources/arxiv.py, sources/semantic_scholar.py)
  // ---------------------------------------------------------------------------

  /** A bound takes part in a filter only when it is given and non-empty (Python truthiness). */
  predicate Active(bound: Option<string>) {
    bound.Some? && bound.value != ""
  }

  /**
    Inclusive lexicographic filter: `date` is not before `start` and not
    after `end`, each bound only when active.
   */
  predicate InRange(date: string, start: Option<string>, end: Option<string>) {
    && (Active(start) ==> !LexLess(date, start.value))
    && (Active(end) ==> !LexLess(end.value, date))
  }

  /** A date equal to both bounds is kept: the filter is inclusive at both ends. */
  lemma InRangeInclusive(d: string)
    ensures InRange(d, Some(d), Some(d))
  {
    LexLessIrreflexive(d);
  }

  // ---------------------------------------------------------------------------
  // Calendar dates (arxiv_crawler.py, crawler.py)
  // ---------------------------------------------------------------------------

  /** A `datetime.date`; years are four-digit so that `%Y` prints four characters. */
  datatype Date = Date(year: int, month: int, day: int)

  predicate Valid(d: Date) {
    1000 <= d.year <= 9999 && 1 <= d.month <= 12 && 1 <= d.day <= 31
  }

  /** `a < b` on dates. */
  predicate Before(a: Date, b: Date) {
    a.year < b.year
    || (a.year == b.year && a.month < b.month)
    || (a.year == b.year && a.month == b.month && a.day < b.day)
  }

  /**
    The crawlers' filter: skip a date before `start` or after `end`,
    each bound only when given.
   */
  predicate DateInRange(d: Date, start: Option<Date>, end: Option<Date>) {
    && (start.Some? ==> !Before(d, start.value))
    && (end.Some? ==> !Before(end.value, d))
  }

  function Pow10(w: nat): (r: nat)
    ensures r > 0
  {
    if w == 0 then 1 else 10 * Pow10(w - 1)
  }

  /** The last `w` decimal digits of `n`, zero-padded. */
  function Pad(n: nat, w: nat): (r: string)
    ensures |r| == w
    ensures forall i :: 0 <= i < |r| ==> '0' <= r[i] <= '9'
  {
    if w == 0 then "" else Pad(n / 10, w - 1) + [DigitChar(n % 10)]
  }

  /** `d.strftime("%Y-%m-%d")` */
  function Format(d: Date): (r: string)
    requires Valid(d)
    ensures |r| == 10 && r[4] == '-' && r[7] == '-'
  {
    Pad(d.year, 4) + "-" + Pad(d.month, 2) + "-" + Pad(d.day, 2)
  }

  lemma DigitOrder(i: nat, j: nat)
    requires i < 10 && j < 10
    ensures DigitChar(i) < DigitChar(j) <==> i < j
    ensures DigitChar(i) == DigitChar(j) <==> i == j
  {
  }

  /** Comparing two concatenations whose first parts have equal length. */
  lemma {:induction false} LexConcat(x1: string, x2: string, y1: string, y2: string)
    requires |x1| == |y1|
    ensures LexLess(x1 + x2, y1 + y2) <==> LexLess(x1, y1) || (x1 == y1 && LexLess(x2, y2))
    decreases |x1|
  {
    if |x1| == 0 {
      assert x1 + x2 == x2 && y1 + y2 == y2;
    } else {
      assert (x1 + x2)[0] == x1[0] && (y1 + y2)[0] == y1[0];
      assert (x1 + x2)[1..] == x1[1..] + x2 && (y1 + y2)[1..] == y1[1..] + y2;
      LexConcat(x1[1..], x2, y1[1..], y2);
      if x1[0] == y1[0] {
        assert x1 == y1 <==> x1[1..] == y1[1..] by {
          assert x1 == [x1[0]] + x1[1..] && y1 == [y1[0]] + y1[1..];
        }
      }
    }
  }

  lemma {:induction false} PadOrder(a: nat, b: nat, w: nat)
    requires a < Pow10(w) && b < Pow10(w)
    ensures LexLess(Pad(a, w), Pad(b, w)) <==> a < b
    ensures Pad(a, w) == Pad(b, w) <==> a == b
    decreases w
  {
    if w == 0 {
    } else {
      var a', b' := a / 10, b / 10;
      assert a' < Pow10(w - 1) && b' < Pow10(w - 1);
      PadOrder(a', b', w - 1);
      DigitOrder(a % 10, b % 10);
      LexConcat(Pad(a', w - 1), [DigitChar(a % 10)], Pad(b', w - 1), [DigitChar(b % 10)]);
      assert a == 10 * a' + a % 10 && b == 10 * b' + b % 10;
      var da, db := [DigitChar(a % 10)], [DigitChar(b % 10)];
      assert LexLess(da, db) <==> DigitChar(a % 10) < DigitChar(b % 10);
      if Pad(a, w) == Pad(b, w) {
        assert Pad(a, w)[..w - 1] == Pad(a', w - 1);
        assert Pad(b, w)[..w - 1] == Pad(b', w - 1);
        assert Pad(a, w)[w - 1] == DigitChar(a % 10);
        assert Pad(b, w)[w - 1] == DigitChar(b % 10);
      }
    }
  }

  /** Two fields joined by a dash compare field by field when the first fields have equal length. */
  lemma Dashed(x1: string, x2: string, y1: string, y2: string)
    requires |x1| == |y1|
    ensures LexLess(x1 + "-" + x2, y1 + "-" + y2) <==> LexLess(x1, y1) || (x1 == y1 && LexLess(x2, y2))
    ensures x1 + "-" + x2 == y1 + "-" + y2 <==> x1 == y1 && x2 == y2
  {
    var a, b := x1 + "-", y1 + "-";
    LexConcat(x1, "-", y1, "-");
    LexLessIrreflexive("-");
    assert LexLess(a, b) <==> LexLess(x1, y1);
    assert a == b <==> x1 == y1 by {
      if a == b { assert x1 == a[..|x1|] && y1 == b[..|y1|]; }
    }
    LexConcat(a, x2, b, y2);
    assert LexLess(a + x2, b + y2) <==> LexLess(x1, y1) || (x1 == y1 && LexLess(x2, y2));
    if x1 + "-" + x2 == y1 + "-" + y2 {
      assert x1 == (x1 + "-" + x2)[..|x1|];
      assert y1 == (y1 + "-" + y2)[..|y1|];
      assert x2 == (x1 + "-" + x2)[|x1| + 1..];
      assert y2 == (y1 + "-" + y2)[|y1| + 1..];
    }
  }

  /**
    On valid dates `strftime("%Y-%m-%d")` preserves order: string
    comparison of the formatted dates is date comparison.
   */
  lemma FormatOrder(a: Date, b: Date)
    requires Valid(a) && Valid(b)
    ensures LexLess(Format(a), Format(b)) <==> Before(a, b)
    ensures Format(a) == Format(b) <==> a == b
  {
    assert Pow10(4) == 10000 && Pow10(2) == 100;
    PadOrder(a.year, b.year, 4);
    PadOrder(a.month, b.month, 2);
    PadOrder(a.day, b.day, 2);
    Dashed(Pad(a.year, 4), Pad(a.month, 2), Pad(b.year, 4), Pad(b.month, 2));
    var ya, yb := Pad(a.year, 4) + "-" + Pad(a.month, 2), Pad(b.year, 4) + "-" + Pad(b.month, 2);
    Dashed(ya, Pad(a.day, 2), yb, Pad(b.day, 2));
  }

  /**
    Filtering by formatted strings against formatted bounds keeps exactly
    the dates the calendar filter keeps.
   */
  lemma FormattedFilterAgrees(d: Date, start: Option<Date>, end: Option<Date>)
    requires Valid(d)
    requires start.Some? ==> Valid(start.value)
    requires end.Some? ==> Valid(end.value)
    ensures InRange(Format(d),
                    if start.Some? then Some(Format(start.value)) else None,
                    if end.Some? then Some(Format(end.value)) else None)
            <==> DateInRange(d, start, end)
  {
    if start.Some? { FormatOrder(d, start.value); }
    if end.Some? { FormatOrder(end.value, d); }
  }
}
