/**
 * A recording studio: a name, a location, the bands booked there and the span of
 * its recording sessions. Building one checks the dates first and the bands second.
 */
module Studios {
  import opened Wrappers
  import opened Text
  import opened Dates
  import opened Bands

  /** The default session span, 1 January 1961 to 31 December 1970. */
  const DefaultStart := Day(Date(1961, 1, 1))
  const DefaultEnd := Day(Date(1970, 12, 31))

  datatype Studio = Studio(name: string, location: string, bands: seq<Band>, startDate: Moment, endDate: Moment)

  /** What the constructor raises: its own two errors, or Python's `TypeError` for a
      comparison between a bare year and a date. */
  datatype StudioError =
    | RecordingDateError(start: Moment, end: Moment)
    | BandStartDateError(band: Band, end: Moment)
    | TypeError(op: string, left: Moment, right: Moment)

  /** `band.formed < end_date` can be evaluated and holds. */
  predicate FormedBefore(b: Band, end: Moment)
  {
    Comparable(b.formed, end) && MomentBefore(b.formed, end)
  }

  /** The first band whose formation moment cannot be compared with the session end (the point
      where building the list of checks raises), or `|bands|` when every comparison can be made. */
  function FirstIncomparable(bands: seq<Band>, end: Moment): (i: nat)
    ensures i <= |bands|
    ensures forall j :: 0 <= j < i ==> Comparable(bands[j].formed, end)
    ensures i < |bands| ==> !Comparable(bands[i].formed, end)
  {
    if bands == [] then 0
    else if !Comparable(bands[0].formed, end) then 0
    else 1 + FirstIncomparable(bands[1..], end)
  }

  /** The position of the first band not formed before the session end, or `|bands|` when
      every band was. */
  function FirstLate(bands: seq<Band>, end: Moment): (i: nat)
    requires forall j :: 0 <= j < |bands| ==> Comparable(bands[j].formed, end)
    ensures i <= |bands|
    ensures forall j :: 0 <= j < i ==> MomentBefore(bands[j].formed, end)
    ensures i < |bands| ==> !MomentBefore(bands[i].formed, end)
  {
    if bands == [] then 0
    else if !MomentBefore(bands[0].formed, end) then 0
    else 1 + FirstLate(bands[1..], end)
  }

  /** `Studio(name, location, *bands, start_date=..., end_date=...)`: a studio holding exactly
      its arguments when the session span is ordered and every band was formed before it ends. */
  function NewStudio(name: string, location: string, bands: seq<Band>,
                     nameonly startDate: Moment := DefaultStart, nameonly endDate: Moment := DefaultEnd)
    : (r: Result<Studio, StudioError>)
    ensures r.Ok? <==>
      && Comparable(startDate, endDate) && !MomentBefore(endDate, startDate)
      && forall j :: 0 <= j < |bands| ==> FormedBefore(bands[j], endDate)
    ensures r.Ok? ==> r.value == Studio(name, location, bands, startDate, endDate)
    ensures !Comparable(startDate, endDate) ==> r == Err(TypeError(">", startDate, endDate))
    ensures Comparable(startDate, endDate) && MomentBefore(endDate, startDate)
            ==> r == Err(RecordingDateError(startDate, endDate))
    ensures Comparable(startDate, endDate) && !MomentBefore(endDate, startDate)
            && (exists j :: 0 <= j < |bands| && !Comparable(bands[j].formed, endDate))
            ==> r.Err? && r.error.TypeError? && r.error.op == "<"
    ensures Comparable(startDate, endDate) && !MomentBefore(endDate, startDate)
            && (forall j :: 0 <= j < |bands| ==> Comparable(bands[j].formed, endDate))
            && (exists j :: 0 <= j < |bands| && !MomentBefore(bands[j].formed, endDate))
            ==> r.Err? && r.error.BandStartDateError?
    ensures r.Err? && r.error.BandStartDateError? ==>
      && Comparable(startDate, endDate) && !MomentBefore(endDate, startDate)
      && r.error.end == endDate
      && (forall j :: 0 <= j < |bands| ==> Comparable(bands[j].formed, endDate))
      && exists i :: 0 <= i < |bands| && r.error.band == bands[i] && !MomentBefore(bands[i].formed, endDate)
                     && forall j :: 0 <= j < i ==> MomentBefore(bands[j].formed, endDate)
    ensures r.Err? && r.error.TypeError? && r.error.op == "<" ==>
      && Comparable(startDate, endDate) && !MomentBefore(endDate, startDate)
      && r.error.right == endDate
      && exists i :: 0 <= i < |bands| && r.error.left == bands[i].formed && !Comparable(bands[i].formed, endDate)
                     && forall j :: 0 <= j < i ==> Comparable(bands[j].formed, endDate)
  {
    if !Comparable(startDate, endDate) then Err(TypeError(">", startDate, endDate))
    else if MomentBefore(endDate, startDate) then Err(RecordingDateError(startDate, endDate))
    else
      var i := FirstIncomparable(bands, endDate);
      if i < |bands| then Err(TypeError("<", bands[i].formed, endDate))
      else
        var j := FirstLate(bands, endDate);
        if j < |bands| then Err(BandStartDateError(bands[j], endDate))
        else Ok(Studio(name, location, bands, startDate, endDate))
  }

  /** The exception's message, `e.message` for the studio's own errors and `str(e)` for a `TypeError`. */
  function Message(e: StudioError): string
  {
    match e
    case RecordingDateError(start, end) =>
      "session start date (" + MomentToString(start) + ") after session end date (" + MomentToString(end) + ")"
    case BandStartDateError(band, end) =>
      "band formed on " + MomentToString(band.formed) + ", after recording session end " + MomentToString(end)
    case TypeError(op, left, right) =>
      "'" + op + "' not supported between instances of '" + TypeName(left) + "' and '" + TypeName(right) + "'"
  }

  /** The names of the bands, in order. */
  function BandNames(bands: seq<Band>): (names: seq<string>)
    ensures |names| == |bands|
    ensures forall i :: 0 <= i < |bands| ==> names[i] == bands[i].name
  {
    if bands == [] then [] else [bands[0].name] + BandNames(bands[1..])
  }

  function HeaderLine(st: Studio): string
  {
    "\"" + st.name + "\" studio, " + st.location
  }

  function SessionsLine(st: Studio): string
  {
    "Recording sessions: " + MomentToString(st.startDate) + " - " + MomentToString(st.endDate)
  }

  function BandsLine(st: Studio): string
  {
    "Bands: " + Join(", ", BandNames(st.bands))
  }

  /** `str(studio)`. */
  function ToString(st: Studio): string
  {
    HeaderLine(st) + "\n" + SessionsLine(st) + "\n" + BandsLine(st)
  }

  // ---------------------------------------------------------------- lemmas

  /** A session that starts and ends on the same day is accepted. */
  lemma SameDaySessionAccepted(name: string, location: string, bands: seq<Band>, d: Moment)
    requires forall j :: 0 <= j < |bands| ==> FormedBefore(bands[j], d)
    ensures NewStudio(name, location, bands, startDate := d, endDate := d)
         == Ok(Studio(name, location, bands, d, d))
  {
  }

  /** The session check comes first: a reversed span is reported whatever the bands are. */
  lemma ReversedSpanWins(name: string, location: string, bands: seq<Band>, start: Date, end: Date)
    requires Before(end, start)
    ensures NewStudio(name, location, bands, startDate := Day(start), endDate := Day(end))
         == Err(RecordingDateError(Day(start), Day(end)))
  {
  }

  /** Two reversed-span messages about dates Python can build are equal only for the same dates. */
  lemma RecordingMessageNamesItsDates(a: Date, b: Date, c: Date, d: Date)
    requires ValidDate(a) && ValidDate(b) && ValidDate(c) && ValidDate(d)
    requires Message(RecordingDateError(Day(a), Day(b))) == Message(RecordingDateError(Day(c), Day(d)))
    ensures a == c && b == d
  {
    IsoFormatLength(a);
    IsoFormatLength(b);
    IsoFormatLength(c);
    IsoFormatLength(d);
    var p, q := "session start date (", ") after session end date (";
    FrameSlices(p, IsoFormat(a), q, IsoFormat(b), ")");
    FrameSlices(p, IsoFormat(c), q, IsoFormat(d), ")");
    IsoFormatInjective(a, c);
    IsoFormatInjective(b, d);
  }

  /** The late-band message names the band's formation date and the session end. */
  lemma BandStartMessageNamesItsDates(b1: Band, b2: Band, e1: Date, e2: Date)
    requires b1.formed.Day? && b2.formed.Day?
    requires ValidDate(b1.formed.date) && ValidDate(b2.formed.date) && ValidDate(e1) && ValidDate(e2)
    requires Message(BandStartDateError(b1, Day(e1))) == Message(BandStartDateError(b2, Day(e2)))
    ensures b1.formed == b2.formed && e1 == e2
  {
    var x1, x2 := b1.formed.date, b2.formed.date;
    IsoFormatLength(x1);
    IsoFormatLength(x2);
    IsoFormatLength(e1);
    IsoFormatLength(e2);
    var p, q := "band formed on ", ", after recording session end ";
    FrameSlices(p, IsoFormat(x1), q, IsoFormat(e1), "");
    FrameSlices(p, IsoFormat(x2), q, IsoFormat(e2), "");
    assert p + IsoFormat(x1) + q + IsoFormat(e1) + "" == Message(BandStartDateError(b1, Day(e1)));
    assert p + IsoFormat(x2) + q + IsoFormat(e2) + "" == Message(BandStartDateError(b2, Day(e2)));
    IsoFormatInjective(b1.formed.date, b2.formed.date);
    IsoFormatInjective(e1, e2);
  }

  /** `str(studio)` is three lines: the header, the session span and the band names. */
  lemma TextLines(st: Studio)
    requires '\n' !in st.name && '\n' !in st.location
    requires forall i :: 0 <= i < |st.bands| ==> '\n' !in st.bands[i].name
    ensures Split(ToString(st), "\n") == [HeaderLine(st), SessionsLine(st), BandsLine(st)]
  {
    var h, s, b := HeaderLine(st), SessionsLine(st), BandsLine(st);
    assert '\n' !in h;
    MomentPlain(st.startDate);
    MomentPlain(st.endDate);
    assert '\n' !in s;
    JoinNoChar(", ", BandNames(st.bands), '\n');
    assert '\n' !in b;
    SplitThreeLines(h, s, b, "\n");
  }

  /** The band line lists the band names in order: cutting it at `", "` gives them back
      when there is at least one band and no name holds a comma. */
  lemma BandsLineNames(st: Studio)
    requires |st.bands| >= 1
    requires forall i :: 0 <= i < |st.bands| ==> ',' !in st.bands[i].name
    ensures BandsLine(st)[|"Bands: "|..] == Join(", ", BandNames(st.bands))
    ensures Split(BandsLine(st)[|"Bands: "|..], ", ") == BandNames(st.bands)
  {
    SplitJoin(BandNames(st.bands), ", ");
  }

  /** In the source's demonstration the Beatles, formed in 1972, come after a session ending
      in 1967: the constructor raises `BandStartDateError` for them, not for Pink Floyd. */
  lemma AbbeyRoadDemo(beatles: Band, pinkFloyd: Band)
    requires beatles.formed == Day(Date(1972, 8, 18)) && pinkFloyd.formed == Day(Date(1965, 2, 12))
    ensures NewStudio("Abbey Road", "London", [beatles, pinkFloyd],
                      startDate := Day(Date(1967, 1, 1)), endDate := Day(Date(1967, 12, 31)))
         == Err(BandStartDateError(beatles, Day(Date(1967, 12, 31))))
  {
  }

  /** The `message` of that error. */
  lemma AbbeyRoadMessage(beatles: Band)
    requires beatles.formed == Day(Date(1972, 8, 18))
    ensures Message(BandStartDateError(beatles, Day(Date(1967, 12, 31))))
         == "band formed on " + "1972-08-18" + ", after recording session end " + "1967-12-31"
  {
    FormedText();
    SessionEndText();
  }

  lemma FormedText()
    ensures MomentToString(Day(Date(1972, 8, 18))) == "1972-08-18"
  {
    assert NatToString(1972) == "1972";
    assert ZeroPad("8", 2) == "08";
    assert NatToString(18) == "18";
  }

  lemma SessionEndText()
    ensures MomentToString(Day(Date(1967, 12, 31))) == "1967-12-31"
  {
    assert NatToString(1967) == "1967";
    assert NatToString(12) == "12";
    assert NatToString(31) == "31";
  }
}
