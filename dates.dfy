/**
 * Dates and years as the music classes use them. A band's `formed` and `split`
 * are plain year numbers by default, but the studio code passes `date` objects;
 * Python orders two ints or two dates and refuses to compare an int with a date.
 */
module Dates {
  import opened Text

  /** A `datetime.date`. */
  datatype Date = Date(year: nat, month: nat, day: nat)

  /** Field ranges every date Python can build keeps to. */
  predicate ValidDate(d: Date)
  {
    1 <= d.year <= 9999 && 1 <= d.month <= 12 && 1 <= d.day <= 31
  }

  /** Python's `a < b` on dates: by year, then month, then day. */
  predicate Before(a: Date, b: Date)
  {
    || a.year < b.year
    || (a.year == b.year && a.month < b.month)
    || (a.year == b.year && a.month == b.month && a.day < b.day)
  }

  lemma BeforeIsStrictTotalOrder(a: Date, b: Date, c: Date)
    ensures !Before(a, a)
    ensures Before(a, b) && Before(b, c) ==> Before(a, c)
    ensures a != b ==> Before(a, b) || Before(b, a)
  {
  }

  /** `str(d)`: `YYYY-MM-DD`, each field zero-padded. */
  function IsoFormat(d: Date): (s: string)
    ensures forall i :: 0 <= i < |s| ==> IsDigit(s[i]) || s[i] == '-'
  {
    ZeroPadDigits(NatToString(d.year), 4);
    ZeroPadDigits(NatToString(d.month), 2);
    ZeroPadDigits(NatToString(d.day), 2);
    ZeroPad(NatToString(d.year), 4) + "-" + ZeroPad(NatToString(d.month), 2) + "-" + ZeroPad(NatToString(d.day), 2)
  }

  lemma {:induction false} ZeroPadDigits(s: string, width: nat)
    requires AllDigits(s)
    ensures AllDigits(ZeroPad(s, width)) && DigitsValue(ZeroPad(s, width)) == DigitsValue(s)
    decreases width - |s|
  {
    if |s| < width {
      LeadingZero(s);
      ZeroPadDigits("0" + s, width);
    }
  }

  lemma {:induction false} LeadingZero(s: string)
    requires AllDigits(s)
    ensures AllDigits("0" + s) && DigitsValue("0" + s) == DigitsValue(s)
    decreases |s|
  {
    var z := "0" + s;
    if s != [] {
      assert z[..|z| - 1] == "0" + s[..|s| - 1];
      LeadingZero(s[..|s| - 1]);
    }
  }

  /** For a date Python can build (year 1 to 9999), `str(d)` is ten characters whose
      three digit fields give back year, month and day. */
  lemma IsoFormatFields(d: Date)
    requires ValidDate(d)
    ensures var s := IsoFormat(d);
      && |s| == 10 && s[4] == '-' && s[7] == '-'
      && AllDigits(s[..4]) && AllDigits(s[5..7]) && AllDigits(s[8..])
      && DigitsValue(s[..4]) == d.year && DigitsValue(s[5..7]) == d.month && DigitsValue(s[8..]) == d.day
  {
    var y, m, dd := NatToString(d.year), NatToString(d.month), NatToString(d.day);
    assert |y| <= 4 by {
      if d.year < 10 { NatToStringLength(d.year, 1); }
      else if d.year < 100 { NatToStringLength(d.year, 2); }
      else if d.year < 1000 { NatToStringLength(d.year, 3); }
      else { NatToStringLength(d.year, 4); }
    }
    assert |m| <= 2 by {
      if d.month < 10 { NatToStringLength(d.month, 1); } else { NatToStringLength(d.month, 2); }
    }
    assert |dd| <= 2 by {
      if d.day < 10 { NatToStringLength(d.day, 1); } else { NatToStringLength(d.day, 2); }
    }
    PaddedField(d.year, 4);
    PaddedField(d.month, 2);
    PaddedField(d.day, 2);
    IsoSlices(ZeroPad(y, 4), ZeroPad(m, 2), ZeroPad(dd, 2));
  }

  /** A number padded to a field at least as wide as its digits fills the field and reads back as itself. */
  lemma PaddedField(n: nat, width: nat)
    requires |NatToString(n)| <= width
    ensures var p := ZeroPad(NatToString(n), width);
      |p| == width && AllDigits(p) && DigitsValue(p) == n
  {
    ZeroPadDigits(NatToString(n), width);
    DigitsValueOfNatToString(n);
  }

  lemma IsoSlices(py: string, pm: string, pd: string)
    requires |py| == 4 && |pm| == 2 && |pd| == 2
    ensures var s := py + "-" + pm + "-" + pd;
      && |s| == 10 && s[4] == '-' && s[7] == '-'
      && s[..4] == py && s[5..7] == pm && s[8..] == pd
  {
    var s := py + "-" + pm + "-" + pd;
    assert s[..4] == py;
    assert s[5..7] == pm;
    assert s[8..] == pd;
  }

  /** Two dates Python can build print alike only when they are the same date. */
  lemma IsoFormatLength(d: Date)
    requires ValidDate(d)
    ensures |IsoFormat(d)| == 10
  {
    IsoFormatFields(d);
  }

  lemma IsoFormatInjective(a: Date, b: Date)
    requires ValidDate(a) && ValidDate(b)
    requires IsoFormat(a) == IsoFormat(b)
    ensures a == b
  {
    IsoFormatFields(a);
    IsoFormatFields(b);
  }

  /** A point in time as the music classes hold it: a bare year (`int`) or a `date`. */
  datatype Moment = Year(year: int) | Day(date: Date)

  /** `str(m)`. */
  function MomentToString(m: Moment): (s: string)
    ensures forall i :: 0 <= i < |s| ==> IsDigit(s[i]) || s[i] == '-'
  {
    match m
    case Year(y) => IntToString(y)
    case Day(d) => IsoFormat(d)
  }

  /** The type name Python puts in a `TypeError` message. */
  function TypeName(m: Moment): string
  {
    if m.Year? then "int" else "datetime.date"
  }

  /** Python's `<` and `>` are defined between two ints and between two dates only. */
  predicate Comparable(a: Moment, b: Moment)
  {
    a.Year? == b.Year?
  }

  /** Python's `a < b` for two comparable moments. */
  predicate MomentBefore(a: Moment, b: Moment)
    requires Comparable(a, b)
  {
    if a.Year? then a.year < b.year else Before(a.date, b.date)
  }
}
