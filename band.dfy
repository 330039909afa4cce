/**
 * A band: a name, its members, and when it was formed and split up. Its text form
 * can be parsed back, and the band object iterates over its own members.
 */
module Bands {
  import opened Wrappers
  import opened Text
  import opened Dates
  import opened Musicians

  /** The two class phrases with their first letter capitalised. */
  const FormedPhrase := "The band was formed in "
  const SplitPhrase := "The band split up in "

  /** What `parse_band_str` returns: the name, the text of every member line, and the two years. */
  datatype ParsedBand = ParsedBand(name: string, members: seq<string>, formed: int, split: int)

  /** The `ValueError`s `parse_band_str` raises. */
  datatype ParseError =
    | TooFewSegments             // no "\n\t" at all: nothing to unpack into name, members and rest
    | WrongLineCount(count: nat) // the last segment does not split into exactly three lines
    | InvalidYear(text: string)  // `int()` refuses the characters taken for a year

  /** What one `next()` on a band gives: a member, `StopIteration`, or the `AttributeError`
      of a band whose counter `__iter__` never introduced. */
  datatype Step = Yielded(member: Musician) | StopIteration | CounterMissing

  /** The text of each member, in order. */
  function MemberTexts(members: seq<Musician>): (texts: seq<string>)
    ensures |texts| == |members|
    ensures forall i :: 0 <= i < |members| ==> texts[i] == ToString(members[i])
  {
    if members == [] then [] else [ToString(members[0])] + MemberTexts(members[1..])
  }

  /** The year read from one line of band text: the four characters before its last one, as an integer. */
  function YearOf(line: string): Result<int, ParseError>
  {
    var digits := PySlice(line, -5, -1);
    match PyInt(digits)
    case Some(y) => Ok(y)
    case None => Err(InvalidYear(digits))
  }

  /** Tuple equality of members, element by element with musician equality. */
  predicate MembersEqual(a: seq<Musician>, b: seq<Musician>)
  {
    |a| == |b| && forall i :: 0 <= i < |a| ==> Musicians.Equals(a[i], b[i])
  }

  class Band {
    const name: string
    const members: seq<Musician>
    const formed: Moment
    const split: Moment
    /** The iterator counter `__i`; absent until `__iter__` first runs. */
    var position: Option<nat>

    ghost predicate Valid()
      reads this
    {
      position.Some? ==> position.value <= |members|
    }

    /** `Band(name, *members, formed=..., split=...)`: every field as given, `formed` 1960 unless given. */
    constructor (name: string, members: seq<Musician>, nameonly formed: Moment := Year(1960), nameonly split: Moment)
      ensures this.name == name && this.members == members
      ensures this.formed == formed && this.split == split
      ensures position == None && Valid()
    {
      this.name := name;
      this.members := members;
      this.formed := formed;
      this.split := split;
      position := None;
    }

    /** `str(band)`: the name, one `\n\t`-prefixed line per member, then the formed and split lines. */
    function ToString(): string
    {
      name + "\n\t"
      + (if |members| > 0 then Join("\n\t", MemberTexts(members)) + "\n" else "")
      + FormedLine() + "\n"
      + SplitLine()
    }

    function FormedLine(): string { FormedPhrase + MomentToString(formed) + "." }

    function SplitLine(): string { SplitPhrase + MomentToString(split) + "." }

    /** `band == other`: same name and equal members; when it was formed or split up does not matter. */
    predicate Equals(other: Band)
    {
      name == other.name && MembersEqual(members, other.members)
    }

    /** `Band.parse_band_str(band_str)`. */
    static function ParseBandStr(s: string): Result<ParsedBand, ParseError>
    {
      var segments := Split(s, "\n\t");
      if |segments| < 2 then Err(TooFewSegments)
      else
        var lines := Split(segments[|segments| - 1], "\n");
        if |lines| != 3 then Err(WrongLineCount(|lines|))
        else
          match YearOf(lines[1])
          case Err(e) => Err(e)
          case Ok(formed) =>
            match YearOf(lines[2])
            case Err(e) => Err(e)
            case Ok(split) =>
              Ok(ParsedBand(segments[0], segments[1..|segments| - 1] + [lines[0]], formed, split))
    }

    /** `Band.from_band_str_year(band_str)`: a new band from the parsed text. The members are
        whatever `fromStr` (standing for `Musician.from_str`) makes of their lines. */
    static method FromBandStrYear(s: string, fromStr: string -> Musician) returns (r: Result<Band, ParseError>)
      ensures ParseBandStr(s).Err? ==> r == Err(ParseBandStr(s).error)
      ensures ParseBandStr(s).Ok? ==>
        var p := ParseBandStr(s).value;
        && r.Ok? && fresh(r.value) && r.value.Valid() && r.value.position == None
        && r.value.name == p.name && r.value.formed == Year(p.formed) && r.value.split == Year(p.split)
        && |r.value.members| == |p.members|
        && forall i :: 0 <= i < |p.members| ==> r.value.members[i] == fromStr(p.members[i])
    {
      match ParseBandStr(s)
      case Err(e) =>
        r := Err(e);
      case Ok(p) =>
        var ms := seq(|p.members|, i requires 0 <= i < |p.members| => fromStr(p.members[i]));
        var b := new Band(p.name, ms, formed := Year(p.formed), split := Year(p.split));
        r := Ok(b);
    }

    /** `Band.is_date_valid(d)`, with today's date passed in: strictly after 1 January 1960
        and strictly before today. */
    static predicate IsDateValid(d: Date, today: Date)
    {
      Before(Date(1960, 1, 1), d) && Before(d, today)
    }

    /** `iter(band)`: (re)starts the counter and hands back the band itself. */
    method Iter() returns (it: Band)
      modifies this`position
      ensures it == this && position == Some(0) && Valid()
    {
      position := Some(0);
      it := this;
    }

    /** `next(band)`: the member under the counter, which then moves on; once past the last
        member it raises `StopIteration`, and keeps doing so. */
    method Next() returns (step: Step)
      requires Valid()
      modifies this`position
      ensures Valid()
      ensures match old(position)
        case None => step == CounterMissing && position == None
        case Some(i) =>
          if i < |members| then step == Yielded(members[i]) && position == Some(i + 1)
          else step == StopIteration && position == Some(i)
    {
      match position
      case None =>
        step := CounterMissing;
      case Some(i) =>
        if i < |members| {
          step := Yielded(members[i]);
          position := Some(i + 1);
        } else {
          step := StopIteration;
        }
    }
  }

  /** The demonstration's loop: `iter(band)`, then `next()` until `StopIteration`. It sees every
      member once, in order, and leaves the iterator exhausted. */
  method DrainMembers(b: Band) returns (seen: seq<Musician>)
    modifies b
    ensures seen == b.members && b.position == Some(|b.members|) && b.Valid()
  {
    var it := b.Iter();
    seen := [];
    while true
      invariant b.Valid() && b.position.Some?
      invariant seen == b.members[..b.position.value]
      decreases |b.members| - b.position.value
    {
      var step := b.Next();
      match step
      case Yielded(m) =>
        seen := seen + [m];
      case StopIteration =>
        break;
      case CounterMissing =>
        assert false;
    }
    assert seen == b.members;
  }

  // ---------------------------------------------------------------- lemmas

  /** Band equality is name and member equality; it is reflexive and symmetric. */
  lemma EqualsIffNameAndMembers(a: Band, b: Band)
    ensures a.Equals(b) <==> a.name == b.name && a.members == b.members
    ensures a.Equals(a) && (a.Equals(b) <==> b.Equals(a))
  {
    if MembersEqual(a.members, b.members) {
      forall i | 0 <= i < |a.members| ensures a.members[i] == b.members[i] {
        EqualsIsSameValue(a.members[i], b.members[i]);
      }
    }
  }

  lemma IsDateValidStrictAtBothEnds(d: Date, today: Date)
    ensures !Band.IsDateValid(Date(1960, 1, 1), today) && !Band.IsDateValid(today, today)
    ensures Band.IsDateValid(d, today) ==> Before(Date(1960, 1, 1), today)
  {
  }

  /** The year slice is the four characters just before the last one of its line. */
  lemma YearSliceIsFourBeforeLast(line: string)
    requires |line| >= 5
    ensures PySlice(line, -5, -1) == line[|line| - 5..|line| - 1]
  {
  }

  /** A line ending in a four-digit year and a full stop gives that year back. */
  lemma YearOfYearLine(phrase: string, y: int)
    requires 1000 <= y <= 9999
    ensures YearOf(phrase + IntToString(y) + ".") == Ok(y)
  {
    assert Pow10(3) == 1000 && Pow10(4) == 10000;
    NatToStringLength(y, 4);
    var digits := NatToString(y);
    var line := phrase + digits + ".";
    assert PySlice(line, -5, -1) == line[|phrase|..|phrase| + 4];
    assert line[|phrase|..|phrase| + 4] == digits;
    PyIntOfNatToString(y);
  }

  /** The closing lines of a band's text hold neither a newline nor a tab. */
  lemma ClosingLinesPlain(b: Band)
    ensures '\n' !in b.FormedLine() && '\t' !in b.FormedLine()
    ensures '\n' !in b.SplitLine() && '\t' !in b.SplitLine()
  {
    PhraseLinePlain(FormedPhrase, b.formed);
    PhraseLinePlain(SplitPhrase, b.split);
  }

  lemma PhraseLinePlain(phrase: string, m: Moment)
    requires '\n' !in phrase && '\t' !in phrase
    ensures var line := phrase + MomentToString(m) + ".";
      '\n' !in line && '\t' !in line
  {
    MomentPlain(m);
  }

  lemma MomentPlain(m: Moment)
    ensures '\n' !in MomentToString(m) && '\t' !in MomentToString(m)
  {
    var ms := MomentToString(m);
    forall i | 0 <= i < |ms| ensures ms[i] != '\n' && ms[i] != '\t' {
      assert IsDigit(ms[i]) || ms[i] == '-';
    }
  }

  /** No member line holds a newline when no member's name does. */
  lemma MemberTextsPlain(members: seq<Musician>)
    requires forall i :: 0 <= i < |members| ==> '\n' !in members[i].name
    ensures forall i :: 0 <= i < |members| ==> '\n' !in MemberTexts(members)[i]
  {
    forall i | 0 <= i < |members| ensures '\n' !in MemberTexts(members)[i] {
      MusicianTextPlain(members[i]);
    }
  }

  lemma MusicianTextPlain(m: Musician)
    requires '\n' !in m.name
    ensures '\n' !in Musicians.ToString(m)
  {
    var suffix := if m.isBandMember then "band member" else "solo musician";
    assert '\n' !in suffix;
    assert Musicians.ToString(m) == m.name + (", " + suffix);
  }

  /** Cutting a band's text at every `\n\t`: the name, each member line but the last, and the
      last member line followed by the closing lines. */
  lemma SplitBandSegments(name: string, texts: seq<string>, tail: string, sep: string)
    requires sep == "\n\t"
    requires |texts| >= 1 && '\n' !in name && '\t' !in tail
    requires forall i :: 0 <= i < |texts| ==> '\n' !in texts[i]
    ensures Split(name + (sep + (Join(sep, texts) + tail)), sep)
         == [name] + texts[..|texts| - 1] + [texts[|texts| - 1] + tail]
  {
    var j := Join(sep, texts) + tail;
    SplitPlainPrefix(name, sep + j, sep);
    SplitLeadingSep(j, sep);
    var x := Split(sep + j, sep);
    assert name + x[0] == name;
    SplitJoinTail(texts, tail, sep);
    SplitUncut(tail, sep);
    assert Split(tail, sep)[1..] == [];
  }

  lemma Regroup(a: string, j: string, f: string, s: string, sep: string, nl: string)
    ensures a + sep + (j + nl) + f + nl + s == a + (sep + (j + (nl + f + nl + s)))
  {
  }

  /** The closing lines of a band's text, each preceded by a newline. */
  function ClosingTail(b: Band): string
  {
    "\n" + b.FormedLine() + "\n" + b.SplitLine()
  }

  lemma ClosingTailPlain(b: Band)
    ensures '\t' !in ClosingTail(b)
  {
    ClosingLinesPlain(b);
  }

  lemma BandTextRegrouped(b: Band)
    requires |b.members| >= 1
    ensures b.ToString() == b.name + ("\n\t" + (Join("\n\t", MemberTexts(b.members)) + ClosingTail(b)))
  {
    Regroup(b.name, Join("\n\t", MemberTexts(b.members)), b.FormedLine(), b.SplitLine(), "\n\t", "\n");
  }

  /** The last segment of a band's text holds three lines: the last member line and the two closing lines. */
  lemma LastSegmentLines(b: Band, last: string)
    requires '\n' !in last
    ensures Split(last + ClosingTail(b), "\n") == [last, b.FormedLine(), b.SplitLine()]
  {
    ClosingLinesPlain(b);
    SplitLedLines(last, b.FormedLine(), b.SplitLine(), "\n");
  }

  /** The `\n\t`-separated segments of the text of a band with members. */
  lemma BandSegments(b: Band)
    requires |b.members| >= 1 && '\n' !in b.name
    requires forall i :: 0 <= i < |b.members| ==> '\n' !in b.members[i].name
    ensures Split(b.ToString(), "\n\t")
         == [b.name] + MemberTexts(b.members)[..|b.members| - 1]
            + [MemberTexts(b.members)[|b.members| - 1] + ClosingTail(b)]
  {
    MemberTextsPlain(b.members);
    ClosingTailPlain(b);
    BandTextRegrouped(b);
    SplitBandSegments(b.name, MemberTexts(b.members), ClosingTail(b), "\n\t");
  }

  lemma InitThenLast<T>(t: seq<T>)
    requires |t| >= 1
    ensures t[..|t| - 1] + [t[|t| - 1]] == t
  {
  }

  /** `parse_band_str` inverts `str` for a band with at least one member, four-digit years,
      and no line breaks in its name or its members' names. */
  lemma ParseRoundTrip(b: Band)
    requires |b.members| >= 1
    requires b.formed.Year? && 1000 <= b.formed.year <= 9999
    requires b.split.Year? && 1000 <= b.split.year <= 9999
    requires '\n' !in b.name
    requires forall i :: 0 <= i < |b.members| ==> '\n' !in b.members[i].name
    ensures Band.ParseBandStr(b.ToString())
         == Ok(ParsedBand(b.name, MemberTexts(b.members), b.formed.year, b.split.year))
  {
    var texts := MemberTexts(b.members);
    var k := |texts|;
    var f, s := b.FormedLine(), b.SplitLine();
    BandSegments(b);
    var segments := Split(b.ToString(), "\n\t");
    assert |segments| == k + 1;
    assert segments[k] == texts[k - 1] + ClosingTail(b);
    MemberTextsPlain(b.members);
    LastSegmentLines(b, texts[k - 1]);
    var lines := Split(segments[k], "\n");
    assert lines == [texts[k - 1], f, s];
    YearOfYearLine(FormedPhrase, b.formed.year);
    YearOfYearLine(SplitPhrase, b.split.year);
    assert YearOf(lines[1]) == Ok(b.formed.year);
    assert YearOf(lines[2]) == Ok(b.split.year);
    assert segments[1..k] == texts[..k - 1];
    InitThenLast(texts);
  }

  /** Without members the text has no member line to close, so its last segment splits into
      two lines, not three, and parsing fails. */
  lemma ParseFailsWithoutMembers(b: Band)
    requires |b.members| == 0
    ensures Band.ParseBandStr(b.ToString()) == Err(WrongLineCount(2))
  {
    var f, s := b.FormedLine(), b.SplitLine();
    ClosingLinesPlain(b);
    RegroupBare(b.name, f, s, "\n\t", "\n");
    ClosingOnlySegments(b.name, f, s);
    LastSegmentTwoLines(b.ToString(), f + "\n" + s);
  }

  lemma RegroupBare(a: string, f: string, s: string, sep: string, nl: string)
    ensures a + sep + "" + f + nl + s == a + (sep + (f + nl + s))
  {
  }

  lemma ClosingOnlySegments(name: string, f: string, s: string)
    requires '\n' !in f && '\t' !in f && '\n' !in s && '\t' !in s
    ensures var segments := Split(name + ("\n\t" + (f + "\n" + s)), "\n\t");
      |segments| >= 2 && segments[|segments| - 1] == f + "\n" + s
    ensures |Split(f + "\n" + s, "\n")| == 2
  {
    var rest := f + "\n" + s;
    assert '\t' !in rest;
    SplitLastIs(name, rest, "\n\t");
    SplitTwoLines(f, s, "\n");
  }

  lemma LastSegmentTwoLines(t: string, last: string)
    requires var segments := Split(t, "\n\t"); |segments| >= 2 && segments[|segments| - 1] == last
    requires |Split(last, "\n")| == 2
    ensures Band.ParseBandStr(t) == Err(WrongLineCount(2))
  {
    var segments := Split(t, "\n\t");
    var lines := Split(segments[|segments| - 1], "\n");
    assert |lines| == 2;
  }

  /** `from_band_str_year(str(b))` rebuilds a band equal to `b` with the same years, when
      `fromStr` reads each member's line back (the inverse of `str` on musicians). */
  method FromBandStrYearRoundTrip(b: Band, fromStr: string -> Musician) returns (c: Result<Band, ParseError>)
    requires |b.members| >= 1
    requires b.formed.Year? && 1000 <= b.formed.year <= 9999
    requires b.split.Year? && 1000 <= b.split.year <= 9999
    requires '\n' !in b.name
    requires forall i :: 0 <= i < |b.members| ==> '\n' !in b.members[i].name
    requires forall m :: fromStr(ToString(m)) == m
    ensures c.Ok? && c.value.Equals(b) && c.value.formed == b.formed && c.value.split == b.split
  {
    ParseRoundTrip(b);
    var texts := MemberTexts(b.members);
    c := Band.FromBandStrYear(b.ToString(), fromStr);
    MembersReadBack(b.members, texts, c.value.members, fromStr);
    EqualsIffNameAndMembers(c.value, b);
  }

  lemma MembersReadBack(members: seq<Musician>, texts: seq<string>, read: seq<Musician>, fromStr: string -> Musician)
    requires texts == MemberTexts(members) && |read| == |texts|
    requires forall i :: 0 <= i < |texts| ==> read[i] == fromStr(texts[i])
    requires forall m :: fromStr(ToString(m)) == m
    ensures read == members
  {
    forall i | 0 <= i < |members| ensures read[i] == members[i] {
      assert texts[i] == ToString(members[i]);
    }
  }
}
