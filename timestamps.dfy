/** Timestamps written so that their text order is their time order.

    The program stamps events with `Utc::now().to_rfc2822()`, text such as
    "Thu, 15 Oct 2026 09:00:00 +0000", and the grouped query ranks them by
    comparing that text. RFC 2822 text starts with the weekday name, so
    text order is not time order (Scenarios.TextualDateRanking,
    Scenarios.OlderRowKept). This module models the evidently intended
    stamp: the RFC 3339 form "2026-10-15T09:00:00+00:00", whose fields are
    fixed-width and most significant first. For such stamps it proves that
    text order is time order and that the grouped query then keeps the most
    recent rows. */
module Timestamps {
  import opened Events
  import opened TextOrder
  import opened Ranking

  /** A UTC instant to the second, as a calendar date and a time of day. */
  datatype Instant = Instant(year: nat, month: nat, day: nat, hour: nat, minute: nat, second: nat)

  /** The field ranges of a four-digit year; second 60 is a leap second. */
  predicate ValidInstant(t: Instant) {
    && t.year <= 9999
    && 1 <= t.month <= 12
    && 1 <= t.day <= 31
    && t.hour < 24
    && t.minute < 60
    && t.second <= 60
  }

  /** `a` is strictly before `b` in time: compare the year, then the month,
      and so on down to the second. */
  predicate Earlier(a: Instant, b: Instant) {
    || a.year < b.year
    || (a.year == b.year && a.month < b.month)
    || (a.year == b.year && a.month == b.month && a.day < b.day)
    || (a.year == b.year && a.month == b.month && a.day == b.day && a.hour < b.hour)
    || (a.year == b.year && a.month == b.month && a.day == b.day && a.hour == b.hour
        && a.minute < b.minute)
    || (a.year == b.year && a.month == b.month && a.day == b.day && a.hour == b.hour
        && a.minute == b.minute && a.second < b.second)
  }

  function Pow10(n: nat): nat {
    if n == 0 then 1 else 10 * Pow10(n - 1)
  }

  /** The decimal digit `d` as a character. */
  function Digit(d: nat): char
    requires d < 10
  {
    (48 + d) as char
  }

  /** `n` in decimal, zero-padded to `width` digits (its low digits when it
      does not fit). */
  function Digits(n: nat, width: nat): (s: string)
    ensures |s| == width
  {
    if width == 0 then [] else Digits(n / 10, width - 1) + [Digit(n % 10)]
  }

  /** Zero-padded numbers of one width sort as text the way they sort as
      numbers. */
  lemma {:induction false} DigitsOrder(n: nat, m: nat, width: nat)
    requires n < Pow10(width) && m < Pow10(width)
    ensures Less(Digits(n, width), Digits(m, width)) <==> n < m
    ensures Digits(n, width) == Digits(m, width) <==> n == m
  {
    if width > 0 {
      var p := Pow10(width - 1);
      assert n / 10 < p && m / 10 < p;
      DigitsOrder(n / 10, m / 10, width - 1);
      var hn, hm := Digits(n / 10, width - 1), Digits(m / 10, width - 1);
      var ln, lm := [Digit(n % 10)], [Digit(m % 10)];
      LessConcat(hn, ln, hm, lm);
      ConcatEqual(hn, ln, hm, lm);
      assert Less(ln, lm) <==> n % 10 < m % 10;
      assert ln == lm <==> n % 10 == m % 10 by {
        assert ln[0] as int == 48 + n % 10 && lm[0] as int == 48 + m % 10;
      }
    }
  }

  /** The numeric fields of an instant, most significant first. */
  function Fields(t: Instant): seq<nat> {
    [t.year, t.month, t.day, t.hour, t.minute, t.second]
  }

  /** The width of each field in an RFC 3339 stamp, and the text before it. */
  const Widths: seq<nat> := [4, 2, 2, 2, 2, 2]
  const Separators: seq<string> := ["", "-", "-", "T", ":", ":"]

  /** Each value fits its width. */
  predicate Fits(values: seq<nat>, widths: seq<nat>)
    requires |values| == |widths|
  {
    forall i :: 0 <= i < |values| ==> values[i] < Pow10(widths[i])
  }

  /** Each value, zero-padded to its width, after its separator. */
  function Render(values: seq<nat>, widths: seq<nat>, separators: seq<string>): string
    requires |values| == |widths| == |separators|
  {
    if values == [] then []
    else separators[0] + Digits(values[0], widths[0]) + Render(values[1..], widths[1..], separators[1..])
  }

  /** `a` comes before `b` comparing value by value. */
  predicate LexLess(a: seq<nat>, b: seq<nat>)
    requires |a| == |b|
  {
    a != [] && (a[0] < b[0] || (a[0] == b[0] && LexLess(a[1..], b[1..])))
  }

  /** Rendered fields of equal widths sort as text the way their values
      sort field by field, and render alike only when the values agree. */
  lemma {:induction false} RenderOrder(a: seq<nat>, b: seq<nat>, widths: seq<nat>, separators: seq<string>)
    requires |a| == |b| == |widths| == |separators|
    requires Fits(a, widths) && Fits(b, widths)
    ensures |Render(a, widths, separators)| == |Render(b, widths, separators)|
    ensures Less(Render(a, widths, separators), Render(b, widths, separators)) <==> LexLess(a, b)
    ensures Render(a, widths, separators) == Render(b, widths, separators) <==> a == b
  {
    if a != [] {
      var pa := separators[0] + Digits(a[0], widths[0]);
      var pb := separators[0] + Digits(b[0], widths[0]);
      var ra := Render(a[1..], widths[1..], separators[1..]);
      var rb := Render(b[1..], widths[1..], separators[1..]);
      FitsTail(a, widths);
      FitsTail(b, widths);
      RenderOrder(a[1..], b[1..], widths[1..], separators[1..]);
      FieldOrder(separators[0], a[0], b[0], widths[0]);
      LessConcat(pa, ra, pb, rb);
      ConcatEqual(pa, ra, pb, rb);
      assert a == [a[0]] + a[1..] && b == [b[0]] + b[1..];
    }
  }

  /** One rendered field after its separator compares as its value does. */
  lemma FieldOrder(separator: string, n: nat, m: nat, width: nat)
    requires n < Pow10(width) && m < Pow10(width)
    ensures Less(separator + Digits(n, width), separator + Digits(m, width)) <==> n < m
    ensures separator + Digits(n, width) == separator + Digits(m, width) <==> n == m
  {
    DigitsOrder(n, m, width);
    LessIrreflexive(separator);
    LessConcat(separator, Digits(n, width), separator, Digits(m, width));
    ConcatEqual(separator, Digits(n, width), separator, Digits(m, width));
  }

  /** Values that fit their widths still fit after dropping the first. */
  lemma FitsTail(values: seq<nat>, widths: seq<nat>)
    requires |values| == |widths| && values != []
    requires Fits(values, widths)
    ensures Fits(values[1..], widths[1..])
  {
    forall i | 0 <= i < |values| - 1
      ensures values[1..][i] < Pow10(widths[1..][i])
    {
      assert values[1..][i] == values[i + 1] && widths[1..][i] == widths[i + 1];
    }
  }

  /** Field-by-field order on the fields of instants is time order. */
  lemma EarlierByFields(a: Instant, b: Instant)
    ensures LexLess(Fields(a), Fields(b)) <==> Earlier(a, b)
  {
    var a5, b5 := [a.second], [b.second];
    var a4, b4 := [a.minute] + a5, [b.minute] + b5;
    var a3, b3 := [a.hour] + a4, [b.hour] + b4;
    var a2, b2 := [a.day] + a3, [b.day] + b3;
    var a1, b1 := [a.month] + a2, [b.month] + b2;
    assert Fields(a) == [a.year] + a1 && Fields(b) == [b.year] + b1;
    assert LexLess(a5, b5) <==> a.second < b.second by {
      assert a5[1..] == [] && b5[1..] == [];
    }
    LexLessCons(a.minute, a5, b.minute, b5);
    LexLessCons(a.hour, a4, b.hour, b4);
    LexLessCons(a.day, a3, b.day, b3);
    LexLessCons(a.month, a2, b.month, b2);
    LexLessCons(a.year, a1, b.year, b1);
  }

  /** Unfolding `LexLess` once on two non-empty sequences. */
  lemma LexLessCons(x: nat, xs: seq<nat>, y: nat, ys: seq<nat>)
    requires |xs| == |ys|
    ensures LexLess([x] + xs, [y] + ys) <==> x < y || (x == y && LexLess(xs, ys))
  {
    assert ([x] + xs)[1..] == xs && ([y] + ys)[1..] == ys;
  }

  /** The RFC 3339 stamp of an instant in UTC, whole seconds:
      "YYYY-MM-DDTHH:MM:SS+00:00". */
  function Rfc3339(t: Instant): string
  {
    Render(Fields(t), Widths, Separators) + "+00:00"
  }

  /** RFC 3339 stamps sort as text in time order, and distinct instants get
      distinct stamps. */
  lemma Rfc3339Chronological(a: Instant, b: Instant)
    requires ValidInstant(a) && ValidInstant(b)
    ensures Less(Rfc3339(a), Rfc3339(b)) <==> Earlier(a, b)
    ensures Rfc3339(a) == Rfc3339(b) <==> a == b
  {
    var fa, fb := Fields(a), Fields(b);
    assert Pow10(2) == 100 && Pow10(4) == 10000;
    assert Fits(fa, Widths) && Fits(fb, Widths);
    RenderOrder(fa, fb, Widths, Separators);
    var ra, rb := Render(fa, Widths, Separators), Render(fb, Widths, Separators);
    LessIrreflexive("+00:00");
    LessConcat(ra, "+00:00", rb, "+00:00");
    ConcatEqual(ra, "+00:00", rb, "+00:00");
    EarlierByFields(a, b);
    assert fa == fb ==> a == b;
  }

  /** With RFC 3339 dates, a row is numbered before another exactly when it
      is later in time, or at the same instant and saved first. */
  lemma ChronologicalPrecedes(x: Event, y: Event, tx: Instant, ty: Instant)
    requires ValidInstant(tx) && ValidInstant(ty)
    requires x.date == Rfc3339(tx) && y.date == Rfc3339(ty)
    ensures Precedes(x, y) <==> Earlier(ty, tx) || (tx == ty && x.id < y.id)
  {
    Rfc3339Chronological(ty, tx);
  }

  /** With RFC 3339 dates, the grouped query keeps a source's most recent
      rows: no row of the source it leaves out is later than a row it
      keeps. `stamps[k]` is the instant that row `k` records. */
  lemma TopByDateIsLatest(rows: seq<Event>, stamps: seq<Instant>, source: string, limit: int)
    requires |stamps| == |rows|
    requires forall k :: 0 <= k < |rows| ==> ValidInstant(stamps[k]) && rows[k].date == Rfc3339(stamps[k])
    ensures var g := TopByDate(rows, source, limit);
      forall k, m ::
        (0 <= k < |rows| && 0 <= m < |rows| && rows[k].source == source && rows[k] !in g && rows[m] in g)
        ==> !Earlier(stamps[m], stamps[k])
  {
    var g := TopByDate(rows, source, limit);
    TopByDateIsTop(rows, source, limit);
    forall k, m | 0 <= k < |rows| && 0 <= m < |rows| && rows[k].source == source
      && rows[k] !in g && rows[m] in g
      ensures !Earlier(stamps[m], stamps[k])
    {
      assert !Precedes(rows[k], rows[m]);
      ChronologicalPrecedes(rows[k], rows[m], stamps[k], stamps[m]);
    }
  }
}
