/** The timestamp text of the query log (section 5.6 of RFC 3339), with the order
    and round-trip promises of section 5.1. */
module Rfc3339 {
  import opened Prelude
  import opened Text
  import opened Calendar

  const SECS_PER_DAY := 86400
  const U64_MAX := 0xffff_ffff_ffff_ffff
  const DAYS_TO_10000 := 2932897  // 1970-01-01 to 10000-01-01

  // The time since the Unix epoch, as the system clock gives it.
  datatype Instant = Instant(secs: nat, millis: nat) {
    predicate Valid() { secs <= U64_MAX && millis < 1000 }
    function InMillis(): int { 1000 * secs + millis }
  }

  // One numeric column of a format string: its width and the text after it.
  datatype Column = Column(width: nat, sep: string)

  const LAYOUT: seq<Column> :=
    [Column(4, "-"), Column(2, "-"), Column(2, "T"), Column(2, ":"), Column(2, ":"), Column(2, "."), Column(3, "Z")]

  function Render(layout: seq<Column>, values: seq<nat>): string
    requires |layout| == |values|
  {
    if layout == [] then ""
    else Padded(values[0], layout[0].width) + layout[0].sep + Render(layout[1..], values[1..])
  }

  // The six columns after the year.
  function Columns(date: Date, t: nat, millis: nat): seq<nat>
    requires 1 <= date.month && 1 <= date.day
  {
    [date.month, date.day, t / 3600, (t % 3600) / 60, t % 60, millis]
  }

  // A narrowed year can be negative; its sign takes one of the four columns.
  function Format(date: Date, t: nat, millis: nat): string
    requires 1 <= date.month && 1 <= date.day
  {
    if date.year < 0 then "-" + Padded(-date.year, 3) + "-" + Render(LAYOUT[1..], Columns(date, t, millis))
    else Render(LAYOUT, [date.year] + Columns(date, t, millis))
  }

  // rfc3339
  function Timestamp(i: Instant): string
    requires i.Valid()
  {
    Format(DaysToDate(i.secs / SECS_PER_DAY), i.secs % SECS_PER_DAY, i.millis)
  }

  /* ---- Fixed-width columns compare as their values ---- */

  predicate Fits(layout: seq<Column>, values: seq<nat>) {
    |layout| == |values| && forall k :: 0 <= k < |values| ==> values[k] < Pow10(layout[k].width)
  }

  predicate NumsLess(a: seq<nat>, b: seq<nat>)
    requires |a| == |b|
  {
    a != [] && (a[0] < b[0] || (a[0] == b[0] && NumsLess(a[1..], b[1..])))
  }

  lemma RenderSplit(layout: seq<Column>, values: seq<nat>)
    requires Fits(layout, values) && layout != []
    ensures Render(layout, values)
         == Fixed(values[0], layout[0].width) + (layout[0].sep + Render(layout[1..], values[1..]))
  {
  }

  lemma {:induction false} RenderKeepsOrder(layout: seq<Column>, a: seq<nat>, b: seq<nat>)
    requires Fits(layout, a) && Fits(layout, b)
    ensures LexLess(Render(layout, a), Render(layout, b)) <==> NumsLess(a, b)
  {
    if layout == [] {
    } else {
      var sep, ra, rb := layout[0].sep, Render(layout[1..], a[1..]), Render(layout[1..], b[1..]);
      RenderSplit(layout, a);
      RenderSplit(layout, b);
      LexFixed(a[0], b[0], layout[0].width, sep + ra, sep + rb);
      LexCommonPrefix(sep, ra, rb);
      RenderKeepsOrder(layout[1..], a[1..], b[1..]);
    }
  }

  /* ---- Reading the columns back ---- */

  function ParseColumns(layout: seq<Column>, s: string): Option<seq<nat>> {
    if layout == [] then (if s == "" then Some([]) else None)
    else
      var w, sep := layout[0].width, layout[0].sep;
      if |s| < w + |sep| || !AllDigits(s[..w]) || s[w..w + |sep|] != sep then None
      else
        match ParseColumns(layout[1..], s[w + |sep|..])
        case None => None
        case Some(rest) => Some([NumberOf(s[..w])] + rest)
  }

  lemma ParseStep(layout: seq<Column>, digits: string, rest: string, tail: seq<nat>)
    requires layout != [] && |digits| == layout[0].width && AllDigits(digits)
    requires ParseColumns(layout[1..], rest) == Some(tail)
    ensures ParseColumns(layout, digits + layout[0].sep + rest) == Some([NumberOf(digits)] + tail)
  {
    var sep := layout[0].sep;
    var s := digits + sep + rest;
    assert s[..|digits|] == digits;
    assert s[|digits|..|digits| + |sep|] == sep;
    assert s[|digits| + |sep|..] == rest;
  }

  lemma {:induction false} ParseRendered(layout: seq<Column>, values: seq<nat>)
    requires Fits(layout, values)
    ensures ParseColumns(layout, Render(layout, values)) == Some(values)
  {
    if layout == [] {
    } else {
      var digits := Fixed(values[0], layout[0].width);
      NumberOfFixed(values[0], layout[0].width);
      ParseRendered(layout[1..], values[1..]);
      ParseStep(layout, digits, Render(layout[1..], values[1..]), values[1..]);
      assert [values[0]] + values[1..] == values;
    }
  }

  // A field-by-field reader of the timestamp: a real date and a time of day.
  function ReadTimestamp(s: string): Option<Instant> {
    match ParseColumns(LAYOUT, s)
    case None => None
    case Some(v) =>
      if |v| != 7 || !ValidDate(Date(v[0], v[1], v[2])) || v[3] >= 24 || v[4] >= 60 || v[5] >= 60 then None
      else
        var days := DaysFromDate(Date(v[0], v[1], v[2]));
        if days < 0 then None
        else Some(Instant(days * SECS_PER_DAY + v[3] * 3600 + v[4] * 60 + v[5], v[6]))
  }

  lemma YearTenThousand(d: Date)
    requires ValidDate(d) && DaysFromDate(d) < DAYS_TO_10000
    ensures d.year <= 9999
  {
    MonthTable(10000);
    var limit := Date(10000, 1, 1);
    assert DaysFromDate(limit) == DAYS_TO_10000;
    DayCountIsMonotone(d, limit);
  }

  // The date of a day count below the year 10000, and what determines it.
  lemma FourDigitYears(days: nat) returns (d: Date)
    requires days < DAYS_TO_10000
    ensures DaysToDate(days) == d
    ensures ValidDate(d) && DaysFromDate(d) == days && 1970 <= d.year <= 9999
  {
    d := Stepped(days);
    SteppedYear(days);
    DaysToDateIsStepped(days);
    YearTenThousand(d);
  }

  lemma FormatFits(d: Date, t: nat, millis: nat)
    requires ValidDate(d) && 0 <= d.year <= 9999 && t < SECS_PER_DAY && millis < 1000
    ensures Fits(LAYOUT, [d.year] + Columns(d, t, millis))
  {
    assert Pow10(1) == 10 && Pow10(2) == 100 && Pow10(3) == 1000 && Pow10(4) == 10000;
  }

  lemma ReadParsed(s: string, v: seq<nat>, d: Date, t: nat, millis: nat)
    requires ValidDate(d) && DaysFromDate(d) >= 0 && d.year >= 0 && t < SECS_PER_DAY
    requires v == [d.year] + Columns(d, t, millis) && ParseColumns(LAYOUT, s) == Some(v)
    ensures ReadTimestamp(s) == Some(Instant(DaysFromDate(d) * SECS_PER_DAY + t, millis))
  {
    assert Date(v[0], v[1], v[2]) == d;
    assert v[3] * 3600 + v[4] * 60 + v[5] == t;
  }

  lemma ReadFormatted(d: Date, t: nat, millis: nat)
    requires ValidDate(d) && 0 <= d.year <= 9999 && DaysFromDate(d) >= 0 && t < SECS_PER_DAY && millis < 1000
    ensures ReadTimestamp(Format(d, t, millis)) == Some(Instant(DaysFromDate(d) * SECS_PER_DAY + t, millis))
  {
    FormatFits(d, t, millis);
    var v: seq<nat> := [d.year] + Columns(d, t, millis);
    ParseRendered(LAYOUT, v);
    ReadParsed(Format(d, t, millis), v, d, t, millis);
  }

  lemma NumsLessSix(a: seq<nat>, b: seq<nat>)
    requires |a| == |b| == 6
    ensures NumsLess(a, b) <==>
            || a[0] < b[0]
            || (a[0] == b[0] && a[1] < b[1])
            || (a[0] == b[0] && a[1] == b[1] && a[2] < b[2])
            || (a[0] == b[0] && a[1] == b[1] && a[2] == b[2] && a[3] < b[3])
            || (a[0] == b[0] && a[1] == b[1] && a[2] == b[2] && a[3] == b[3] && a[4] < b[4])
            || (a[0] == b[0] && a[1] == b[1] && a[2] == b[2] && a[3] == b[3] && a[4] == b[4] && a[5] < b[5])
  {
    assert NumsLess(a[5..], b[5..]) <==> a[5] < b[5];
    assert a[4..][1..] == a[5..] && b[4..][1..] == b[5..];
    assert NumsLess(a[4..], b[4..]) <==> a[4] < b[4] || (a[4] == b[4] && a[5] < b[5]);
    assert a[3..][1..] == a[4..] && b[3..][1..] == b[4..];
    assert NumsLess(a[3..], b[3..]) <==> a[3] < b[3] || (a[3] == b[3] && NumsLess(a[4..], b[4..]));
    assert a[2..][1..] == a[3..] && b[2..][1..] == b[3..];
    assert a[1..][1..] == a[2..] && b[1..][1..] == b[2..];
    assert NumsLess(a[1..], b[1..]) <==> a[1] < b[1] || (a[1] == b[1] && NumsLess(a[2..], b[2..]));
  }

  lemma TimeParts(t: nat) returns (h: nat, mi: nat, s: nat)
    ensures h == t / 3600 && mi == (t % 3600) / 60 && s == t % 60
    ensures t == 3600 * h + 60 * mi + s && mi < 60 && s < 60
  {
    h, mi, s := t / 3600, (t % 3600) / 60, t % 60;
  }

  // Hours, minutes and seconds order a time of day as its seconds do.
  lemma TimeOrder(t: nat, t': nat)
    ensures t < t' <==>
            || t / 3600 < t' / 3600
            || (t / 3600 == t' / 3600 && (t % 3600) / 60 < (t' % 3600) / 60)
            || (t / 3600 == t' / 3600 && (t % 3600) / 60 == (t' % 3600) / 60 && t % 60 < t' % 60)
    ensures t == t' <==> t / 3600 == t' / 3600 && (t % 3600) / 60 == (t' % 3600) / 60 && t % 60 == t' % 60
  {
    var h, mi, s := TimeParts(t);
    var h', mi', s' := TimeParts(t');
    assert t < t' <==> h < h' || (h == h' && mi < mi') || (h == h' && mi == mi' && s < s');
  }

  lemma FormatOrder(d: Date, t: nat, millis: nat, d': Date, t': nat, millis': nat)
    requires ValidDate(d) && 0 <= d.year <= 9999 && t < SECS_PER_DAY && millis < 1000
    requires ValidDate(d') && 0 <= d'.year <= 9999 && t' < SECS_PER_DAY && millis' < 1000
    ensures LexLess(Format(d, t, millis), Format(d', t', millis')) <==>
            Before(d, d') || (d == d' && (t < t' || (t == t' && millis < millis')))
  {
    FormatFits(d, t, millis);
    FormatFits(d', t', millis');
    var v: seq<nat>, v': seq<nat> := [d.year] + Columns(d, t, millis), [d'.year] + Columns(d', t', millis');
    RenderKeepsOrder(LAYOUT, v, v');
    assert v[1..] == Columns(d, t, millis) && v'[1..] == Columns(d', t', millis');
    NumsLessSix(v[1..], v'[1..]);
    TimeOrder(t, t');
  }

  /* ---- Main results ---- */

  // Reading the fields of a timestamp recovers the instant.
  lemma ReadBack(i: Instant)
    requires i.Valid() && i.secs / SECS_PER_DAY < DAYS_TO_10000
    ensures ReadTimestamp(Timestamp(i)) == Some(i)
  {
    var d := FourDigitYears(i.secs / SECS_PER_DAY);
    ReadFormatted(d, i.secs % SECS_PER_DAY, i.millis);
  }

  // Up to the year 9999, timestamps sort as strings exactly as the instants do.
  lemma TimestampOrder(a: Instant, b: Instant)
    requires a.Valid() && a.secs / SECS_PER_DAY < DAYS_TO_10000
    requires b.Valid() && b.secs / SECS_PER_DAY < DAYS_TO_10000
    ensures LexLess(Timestamp(a), Timestamp(b)) <==> a.InMillis() < b.InMillis()
  {
    var da := FourDigitYears(a.secs / SECS_PER_DAY);
    var db := FourDigitYears(b.secs / SECS_PER_DAY);
    FormatOrder(da, a.secs % SECS_PER_DAY, a.millis, db, b.secs % SECS_PER_DAY, b.millis);
    DayCountIsMonotone(da, db);
  }

  /* ---- The text, column by column ---- */

  // Where the k-th column starts.
  function Offset(layout: seq<Column>, k: nat): nat
    requires k <= |layout|
  {
    if k == 0 then 0 else layout[0].width + |layout[0].sep| + Offset(layout[1..], k - 1)
  }

  // A column holds a value, and its separator follows.
  ghost predicate ColumnAt(s: string, at: nat, width: nat, value: int, sep: string) {
    && at + width + |sep| <= |s|
    && AllDigits(s[at..at + width]) && NumberOf(s[at..at + width]) == value
    && s[at + width..at + width + |sep|] == sep
  }

  lemma SliceOfTail(s: string, m: nat, a: nat, b: nat)
    requires m <= |s| && a <= b <= |s| - m
    ensures s[m..][a..b] == s[m + a..m + b]
  {
  }

  lemma ColumnLater(s: string, m: nat, at: nat, width: nat, value: int, sep: string)
    requires m <= |s| && ColumnAt(s[m..], at, width, value, sep)
    ensures ColumnAt(s, m + at, width, value, sep)
  {
    SliceOfTail(s, m, at, at + width);
    SliceOfTail(s, m, at + width, at + width + |sep|);
  }

  lemma {:induction false} ParsedColumn(layout: seq<Column>, s: string, v: seq<nat>, k: nat)
    requires ParseColumns(layout, s) == Some(v) && k < |layout|
    ensures |v| == |layout| && |s| == Offset(layout, |layout|)
    ensures ColumnAt(s, Offset(layout, k), layout[k].width, v[k], layout[k].sep)
  {
    var m := layout[0].width + |layout[0].sep|;
    if |layout| > 1 {
      ParsedColumn(layout[1..], s[m..], v[1..], if k == 0 then 0 else k - 1);
    } else {
      assert s[m..] == "";
    }
    if k == 0 {
      assert s[0..layout[0].width] == s[..layout[0].width];
    } else {
      ColumnLater(s, m, Offset(layout[1..], k - 1), layout[k].width, v[k], layout[k].sep);
    }
  }

  lemma LayoutOffsets()
    ensures Offset(LAYOUT, 0) == 0 && Offset(LAYOUT, 1) == 5 && Offset(LAYOUT, 2) == 8 && Offset(LAYOUT, 3) == 11
    ensures Offset(LAYOUT, 4) == 14 && Offset(LAYOUT, 5) == 17 && Offset(LAYOUT, 6) == 20 && Offset(LAYOUT, 7) == 24
  {
  }

  // What a text of seven columns that reads as the values looks like.
  lemma SevenColumns(s: string, v: seq<nat>)
    requires ParseColumns(LAYOUT, s) == Some(v)
    ensures |s| == 24 && |v| == 7
    ensures ColumnAt(s, 0, 4, v[0], "-") && ColumnAt(s, 5, 2, v[1], "-") && ColumnAt(s, 8, 2, v[2], "T")
    ensures ColumnAt(s, 11, 2, v[3], ":") && ColumnAt(s, 14, 2, v[4], ":") && ColumnAt(s, 17, 2, v[5], ".")
    ensures ColumnAt(s, 20, 3, v[6], "Z")
  {
    LayoutOffsets();
    ParsedColumn(LAYOUT, s, v, 0);
    ParsedColumn(LAYOUT, s, v, 1);
    ParsedColumn(LAYOUT, s, v, 2);
    ParsedColumn(LAYOUT, s, v, 3);
    ParsedColumn(LAYOUT, s, v, 4);
    ParsedColumn(LAYOUT, s, v, 5);
    ParsedColumn(LAYOUT, s, v, 6);
  }

  lemma MinuteOfHour(t: nat)
    ensures (t % 3600) / 60 == t / 60 % 60
  {
    var h, r := t / 3600, t % 3600;
    assert t == 60 * (60 * h) + r;
    assert t / 60 == 60 * h + r / 60;
  }

  // Up to the year 9999 the text is `YYYY-MM-DDThh:mm:ss.mmmZ`: the date of the day count,
  // and the time of day.
  lemma TimestampText(i: Instant)
    requires i.Valid() && i.secs / SECS_PER_DAY < DAYS_TO_10000
    ensures var s, d, t := Timestamp(i), DaysToDate(i.secs / SECS_PER_DAY), i.secs % SECS_PER_DAY;
      && |s| == 24
      && ColumnAt(s, 0, 4, d.year, "-") && ColumnAt(s, 5, 2, d.month, "-") && ColumnAt(s, 8, 2, d.day, "T")
      && ColumnAt(s, 11, 2, t / 3600, ":") && ColumnAt(s, 14, 2, t / 60 % 60, ":") && ColumnAt(s, 17, 2, t % 60, ".")
      && ColumnAt(s, 20, 3, i.millis, "Z")
  {
    var d := FourDigitYears(i.secs / SECS_PER_DAY);
    var t := i.secs % SECS_PER_DAY;
    FormatFits(d, t, i.millis);
    var v: seq<nat> := [d.year] + Columns(d, t, i.millis);
    ParseRendered(LAYOUT, v);
    SevenColumns(Timestamp(i), v);
    MinuteOfHour(t);
  }

  // From the year 10000 on the text starts with the whole year, and a year narrowed to a
  // negative one with its sign.
  lemma OtherYears(i: Instant)
    requires i.Valid()
    ensures var year := DaysToDate(i.secs / SECS_PER_DAY).year;
      && (year >= 10000 ==> Decimal(year) + "-" <= Timestamp(i))
      && (year < 0 ==> Timestamp(i)[..1] == "-")
  {
    var d := DaysToDate(i.secs / SECS_PER_DAY);
    assert Pow10(4) == 10000;
    if d.year >= 10000 {
      var v: seq<nat> := [d.year] + Columns(d, i.secs % SECS_PER_DAY, i.millis);
      assert Render(LAYOUT, v) == Decimal(d.year) + "-" + Render(LAYOUT[1..], v[1..]);
    }
  }
}
