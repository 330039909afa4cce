# The music domain model and `sort_dictionary`, in Dafny

This project models the small domain model of a Python teaching repository and one of
its dictionary helpers:

- **Musicians** (`music/musician.py`): a musician is a name and a band-membership flag;
  `str` prints `"<name>, band member"` or `"<name>, solo musician"`; `==` compares both
  fields; `play` formats a performance line from a song title, positional expressions of
  gratitude and keyword messages (the `rhythm_count` keyword goes up front, the other
  keywords' values go last); `play_song` forwards to `play`.
- **Bands** (`music/band.py`): a band is a name, a tuple of members and the moments it was
  formed and split up. `str` prints the name, one `\n\t`-prefixed line per member, and a
  "formed in" and a "split up in" line; `parse_band_str` reads such a text back, cutting it
  at `\n\t` and `\n` and reading each year from the four characters before the full stop;
  `from_band_str_year` builds a new band from the parsed text; `is_date_valid` checks
  1960-01-01 < d < today; `__iter__`/`__next__` step a counter through the members. The band
  is a Dafny `class` whose fields are fixed at construction and whose iterator counter is
  the one mutable field.
- **Studios** (`music/studio.py`): building a studio first checks the recording-session
  span (start not after end), then that every band was formed strictly before the session
  end, and reports the first band that was not; `str` prints three lines; the two error
  classes build their messages from the dates.
- **`sort_dictionary`** (`python/dictionaries.py`): the items of a dictionary sorted
  stably by key (`'k'`) or by value (`'v'`, `'V'`), `None` for any other selector.

Python semantics the model relies on are written out in the `Text` and `Dates` modules:
`str.split` with a multi-character separator, `str.join`, `str(int)`, `int(str)` (surrounding
whitespace, a sign, digits with single underscores), slicing with negative bounds,
`str(date)` as `YYYY-MM-DD`, the ordering of dates, and the `TypeError` Python raises when
an `int` year meets a `date`. A band's `formed` and `split` are a `Moment`: a bare year
(what `band.py` uses) or a date (what the studio code passes).

Modules: `Wrappers` (`wrappers.dfy`), `Text` (`text.dfy`), `Dates` (`dates.dfy`),
`Musicians` (`musician.dfy`), `Bands` (`band.dfy`), `Studios` (`studio.dfy`),
`Dictionaries` (`dictionaries.dfy`).

## Model

| member | source | states |
|---|---|---|
| Musicians.EqualsIsSameValue | music/musician.py:38-39 | `Musicians.Equals`: `==` on musicians holds exactly when name and band membership agree; it is reflexive and symmetric |
| Musicians.ToStringInjective | music/musician.py:35-36 | `Musicians.ToString`: two musicians print the same text exactly when they are equal, so `str` loses nothing `==` looks at |
| Musicians.DefaultIsBandMember | music/musician.py:25-27 | the constructor stores the name unchanged and a musician is a band member unless told otherwise |
| Musicians.PlaySong | music/musician.py:52-56 | `play_song` returns exactly what `play` returns for the same arguments |
| Musicians.RhythmCountFound | music/musician.py:48 | `Musicians.RhythmCount`: the rhythm count is the value of the `rhythm_count` keyword wherever it stands among the keywords |
| Musicians.RhythmCountAbsent | music/musician.py:48 | `Musicians.RhythmCount`: without a `rhythm_count` keyword the rhythm count is empty |
| Musicians.MessagesSkipRhythmCount | music/musician.py:49 | `Musicians.Messages`: inserting a `rhythm_count` keyword anywhere leaves the messages unchanged |
| Musicians.MessagesAppend | music/musician.py:49 | `Musicians.Messages`: each further non-`rhythm_count` keyword adds its value after one space, in insertion order; none at all gives `""` |
| Musicians.PlayTitleOnly | music/musician.py:50 | `Musicians.Play`: with only a title, `play` keeps every separator of its format around empty pieces |
| Musicians.PlayDemo | music/musician.py:41-50 | `Musicians.Play`: a call with a rhythm count, one expression of gratitude and an `end` message puts the count first and the message last |
| Bands.MemberTexts | music/band.py:43 | one member text per member, in order, each the member's `str` |
| Bands.Band.constructor | music/band.py:32-37 | name, members, formed and split are stored as given, `formed` defaults to 1960, and no iterator counter exists yet |
| Bands.BandSegments | music/band.py:39-46 | `Bands.Band.ToString`: cutting `str(band)` at `\n\t` gives the name, every member line but the last, and the last member line followed by the formed and split lines |
| Bands.ParseRoundTrip | music/band.py:52-62 | `Bands.Band.ParseBandStr` inverts `Bands.Band.ToString`: for a band with a member, four-digit years and no newline in its names, `parse_band_str(str(b))` gives back the name, the member texts in order and both years |
| Bands.ParseFailsWithoutMembers | music/band.py:42-43 | `Bands.Band.ParseBandStr` on `Bands.Band.ToString`: for any band without members the formed line follows `name + "\n\t"` directly, so the last segment has two lines and parsing fails |
| Bands.YearSliceIsFourBeforeLast | music/band.py:59-60 | `Bands.YearOf`: a year is read from the four characters just before the last character of its line |
| Bands.YearOfYearLine | music/band.py:59-60 | `Bands.YearOf`: a line ending in a four-digit year and a full stop yields that year |
| Bands.EqualsIffNameAndMembers | music/band.py:48-49 | `Bands.Band.Equals`: band `==` holds exactly when names and members are equal, whatever `formed` and `split` are; it is reflexive and symmetric |
| Bands.Band.FromBandStrYear | music/band.py:65-68 | a parse error propagates; otherwise a new band with the parsed name and years and one member per parsed member text |
| Bands.FromBandStrYearRoundTrip | music/band.py:65-68 | `from_band_str_year(str(b))` is a band equal to `b` with the same years when `from_str` inverts `str` on musicians |
| Bands.IsDateValidStrictAtBothEnds | music/band.py:76-81 | `Bands.Band.IsDateValid`: both comparisons are strict, so neither 1960-01-01 nor today itself is a valid start date |
| Bands.Band.Iter | music/band.py:83-93 | `iter(band)` resets the counter to 0 and returns the band itself |
| Bands.Band.Next | music/band.py:95-101 | `next` returns the member under the counter and advances it; at the end it raises `StopIteration` and keeps raising; without `iter` first there is no counter |
| Bands.DrainMembers | music/band.py:161-171 | the demonstration's `while True` loop over `next` sees every member once, in order, and leaves the iterator exhausted |
| Studios.FirstIncomparable | music/studio.py:25 | the first band whose `formed < end_date` raises `TypeError`, or none |
| Studios.FirstLate | music/studio.py:26 | `.index(False)`: the first band not formed before the session end, or none |
| Studios.NewStudio | music/studio.py:22-32 | a studio is built exactly when start is not after end and every band was formed before the end, and then holds its arguments unchanged; a reversed span raises `RecordingDateError` whatever the bands; under an ordered span a band whose formation cannot be compared with the end raises `TypeError` for the first such band, and otherwise a band formed on or after the end raises `BandStartDateError` for the first such band |
| Studios.SameDaySessionAccepted | music/studio.py:23 | a session starting and ending on the same day is accepted, the check being strict |
| Studios.ReversedSpanWins | music/studio.py:23-26 | the span check takes precedence over the band check |
| Studios.RecordingMessageNamesItsDates | music/studio.py:52-53 | `Studios.Message`: two `RecordingDateError` messages are equal only for the same start and end dates |
| Studios.BandStartMessageNamesItsDates | music/studio.py:61-62 | `Studios.Message`: two `BandStartDateError` messages are equal only for the same formation date and session end |
| Studios.BandNames | music/studio.py:37 | one name per band, in order |
| Studios.TextLines | music/studio.py:34-38 | `Studios.ToString`: `str(studio)` is three lines: the quoted name and location, the session span, and the band names |
| Studios.BandsLineNames | music/studio.py:37 | the band line lists the band names in order, joined by `", "` |
| Studios.AbbeyRoadDemo | music/studio.py:106-112 | the demonstration's Beatles, formed in 1972, are reported as formed after the 1967 session end |
| Studios.AbbeyRoadMessage | music/studio.py:61-62 | the demonstration's error message reads `band formed on 1972-08-18, after recording session end 1967-12-31` |
| Dictionaries.SortDictionary | python/dictionaries.py:68-73 | `None` for a selector other than `'k'`, `'v'`, `'V'`; otherwise a `TypeError` exactly when the sort keys mix numbers and strings, else the same items, ascending by key or value, stable, with keys strictly ascending when sorting by key |
| Dictionaries.SortedItems | python/dictionaries.py:69-71 | `dict(sorted(d.items(), key=...))` is a permutation of the items, sorted, stable, with distinct keys |
| Dictionaries.SortPermutation | python/dictionaries.py:69-71 | `Dictionaries.Sort`: `sorted` adds and drops nothing: the result is a permutation of the items |
| Dictionaries.SortSorted | python/dictionaries.py:69-71 | `Dictionaries.Sort`: the result is in ascending order of the sort key |
| Dictionaries.SortStable | python/dictionaries.py:71 | `Dictionaries.Sort`: items with equal sort keys keep their input order |
| Dictionaries.SortDistinct | python/dictionaries.py:69 | `Dictionaries.Sort`: the result still maps each key once |
| Dictionaries.ByKeyStrictlyAscending | python/dictionaries.py:68-69 | sorted by key with distinct keys, the keys are strictly ascending |
| Dictionaries.JohnByKey | python/dictionaries.py:79-80 | the demonstration dictionary sorted by key is `alive`, `birth_year`, `name` |
| Dictionaries.JohnByValueRaises | python/dictionaries.py:81 | sorting it by value raises `TypeError`, a string meeting an int |
| Dictionaries.JohnUnknownSelector | python/dictionaries.py:82 | `sort_dictionary(john, 23)` is `None` |
| Text.SplitJoin | music/studio.py:37 | cutting a join at its separator gives the parts back when no part holds the separator's first character (used for the `", "` band list) |
| Text.JoinSplit | music/band.py:55 | joining the pieces of a split with the separator restores the text |
| Text.PyIntOfNatToString | music/band.py:59-60 | `int(str(n)) == n` for every natural number |
| Dates.IsoFormatFields | music/studio.py:36 | `str(date)` is ten characters whose three digit fields give year, month and day back |
| Dates.IsoFormatInjective | music/studio.py:36 | two dates print alike only when they are the same date |

## Left out

- `music/crawl.py`: its page-fetching, paging and record-extraction functions are docstring
  stubs in the code, and its script part is HTTP and HTML parsing; there is no logic to model,
  and the model follows the code rather than a description of a crawler that the code does not
  implement.
- `Musician.from_str` and `Band.from_band_str_date` are stubs returning `None`. `parse_band_str`
  is modelled as returning the member texts (`ParsedBand.members`), and `from_band_str_year`
  takes the text-to-musician conversion as a parameter; with the stub as written every
  parsed member would be `None`.
- `next_member`, the JSON encoders and decoders, and the `Singer`, `Songwriter` and
  `SingerSongwriter` classes have no bodies to model.
- `date.today()` is a parameter of `IsDateValid`; the `split` default of `Band.__init__`
  (the current year, fixed at import time) is not modelled, so `split` must be given.
- Bands.FormedPhrase and Bands.SplitPhrase are the results of `'the band was formed in '.capitalize()`
  and `'the band split up in '.capitalize()`, written out rather than computed.
- Bands.EqualsIffNameAndMembers and Musicians.EqualsIsSameValue: comparing with an object that is
  not a band (musician) gives `False` in the source; the model only compares values of the same type.
- Bands.ParseRoundTrip: holds for `Year` moments only; `parse_band_str` always reads years.
- Text.PyInt: non-ASCII digits and whitespace that Python's `int()` also accepts are not modelled.
- Dates.Date: any natural numbers are allowed as fields; the calendar validity `date()`
  enforces is only assumed where a lemma needs it (`ValidDate`).
- Studios.NewStudio: the order of the operands Python names in a `TypeError` message comes
  from the comparison that failed; the model records that comparison's operands.
- Dictionaries.SortDictionary: keys and values are ints, bools and strings only; floats,
  `None` and other types are not modelled. A mixed-type sort is reported as a `TypeError` without
  the operand types Python's message names, since those depend on which pair the sort compared
  first. `sorted` is modelled by a stable insertion sort, which gives the same order as any
  stable sort.
- `Studio.__str__` prints moments through `str`; a bare-year moment prints as the number.
- File, pickle and standard-error demonstrations in the script parts, `util/utility.py`,
  `blankscripts/` and the other `python/` tutorial scripts print or do I/O and state nothing
  to model.
