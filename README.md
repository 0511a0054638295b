# scrapeDA session scraper, modelled in Dafny

scrapeDA scrapes the "more-rubin" council information system of the city of
Darmstadt. Its core, `session.py`, does the following:

- it finds the ids of the council's meetings by paging through a search;
- it reads each meeting's record (title, date and times, room, committee);
- it turns the meeting's agenda table into agenda items, including the bill
  reference each item may carry;
- it follows the links on an agenda item's attachments page;
- it decides whether the portal changed since the last run.

The portal disguises its links as forms whose hidden inputs carry the
parameters, so a small `Form` class serialises such a form back into a URL.

This project models those operations once the network and the HTML parser
are removed. A page is what the parser would have extracted from it: the
`sid` values of a result page, the cell texts of an info table, the cells of
an agenda table (text plus the first form inside), the forms of an
attachments page and its text, and the text of the update banner. What the
source computes from those inputs is modelled with its branches, its
constants and its exceptions, except for the cases listed under "Left out"
(among them a result page without the results table):

| module (file) | source |
|---|---|
| `Wrappers` (wrappers.dfy) | `Option` and `Result` |
| `Text` (text.dfy) | the Python string operations the core uses: `strip`, `in`, `index`, slices, `join`, `int` on digits; plus `Split`, the inverse of `join` that the round-trip lemmas read URLs back with (the source never splits) |
| `DateTimes` (datetimes.dfy) | `datetime` validity, `<`, and `timedelta.seconds` |
| `Forms` (forms.dfy) | `Form` and `Form.toURL`, and the hidden-input collection |
| `Discovery` (discovery.dfy) | `SessionFinder.get_meetings` |
| `Metadata` (metadata.dfy) | `RubinScraper.get_metadata` |
| `Tables` (tables.dfy) | `parse_table`, `get_url_from_form` |
| `Agenda` (agenda.dfy) | `parse_toc` |
| `Attachments` (attachments.dfy) | `scrape_attachments_page` |
| `ChangeDetection` (changes.dfy) | `has_website_changed` |

Loops that the source runs step by step are methods with loop invariants:
`Form.ToUrl`, `HiddenForm`, `GetMeetings` and its inner `ScanPage`,
`GetMetadata`, `ParseTable`, `GetUrlFromForm`, `ParseToc` and
`ScrapeAttachmentsPage`. Each is proved equal to a specification function,
and the properties the scraper relies on are proved about those functions as
lemmas. Generators are modelled as running to their end: the method returns
everything they yield, plus the exception that ended them, if any.

Behaviour of the code worth knowing:

- `get_meetings` stops only on a result page without any `sid` input. It does
  not stop on a page that adds no new ids. Such a page is requested again at
  the same offset, and as long as the portal returns the same page for that
  offset this goes on forever, which `StuckPageRepeats` states. The loop is
  therefore modelled with a bound on the number of requests.
- `parse_toc` cuts the bill year and number at fixed offsets from the start
  of the title (13–17 and 18–22 with `SV-`, 10–14 and 15–19 without). The
  offsets do not depend on where the `[Vorlage: ` marker stands. With three
  characters before the marker, as in `...[Vorlage: SV-2006-0123, weiteres]`,
  the fields come out shifted to `SV-2`, `06-0` and `e: SV-2006-0123`
  (`ShiftedMarker`). The id ends at the first comma of the whole title, not
  of the bracketed part.
- `parse_toc` decodes every row it is given. There is no test that picks out
  the agenda table. The three bill fields are not all-or-nothing: a marked
  title gives whatever its slices hold, possibly empty strings.

## Model

| member | source | states |
|---|---|---|
| Text.Strip | session.py:148-149 | `str.strip()`: the result starts and ends with no whitespace, and is what remains of the input after removing whitespace from both ends |
| Text.Contains | session.py:217-218 | `sub in s` holds exactly when `sub` occurs at some position of `s` |
| Text.IndexOf | session.py:224 | `s.index(c)`: the first position holding `c`, and none exactly when `c` is absent |
| Text.Slice | session.py:219-224 | `s[i:j]` clamps to the string: its length is `max(0, min(j, len(s)) - i)` and it holds the characters from `i` on |
| Text.SplitJoin | session.py:67 | splitting a `&`-join of pieces free of `&` gives back the pieces |
| Text.JoinSplit | session.py:67 | joining the pieces of a split gives back the string |
| Text.ValuePad | session.py:125 | a number written with zero padding reads back as the number |
| DateTimes.TimedeltaSeconds | session.py:160-164 | `(end - begin).seconds` is a number of seconds in [0, 86400) and a multiple of 60 |
| DateTimes.BeforeIffEarlier | session.py:128 | `a < b` on valid datetimes holds exactly when fewer minutes have elapsed at `a` |
| DateTimes.BeforeStrictOrder | session.py:128 | `<` on valid datetimes is irreflexive, transitive and total |
| DateTimes.SameDayDuration | session.py:156-164 | on one date, `seconds / 60` is the difference of the clock times modulo 1440, and the plain difference when the end is not earlier |
| Forms.Form.ToUrl | session.py:62-67 | the URL is the action, `?`, and the `key=value` pairs joined by `&` in list order |
| Forms.Params | session.py:63-65 | one `key=value` parameter per pair, in list order |
| Forms.UrlRoundTrip | session.py:62-67 | with an action free of `?`, at least one pair, and no `&` or `=` in names and values, splitting the URL at `?`, `&` and `=` gives back the form |
| Forms.ParamsRoundTrip | session.py:63-67 | splitting the query on `&` and then `=` gives back the pairs |
| Forms.ParamRoundTrip | session.py:65 | one `key=value` parameter splits back into its key and value |
| Forms.FormUrlExample | session.py:62-67 | `x.php` with `a=1`, `b=2` gives `x.php?a=1&b=2`; no pairs gives `x.php?` |
| Forms.HiddenValues | session.py:201-202 | the pairs collected are exactly those of the hidden inputs |
| Forms.HiddenValuesAppend | session.py:201-202 | the pairs keep document order |
| Forms.HiddenForm | session.py:199-202 | the form keeps the action and collects the hidden pairs in order |
| Discovery.ScanPage | session.py:104-111 | the inner loop over one page yields the ids and leaves the seen set that `Scan` describes |
| Discovery.ScanExact | session.py:104-111 | a page yields each non-empty value not seen before, once, and nothing else; the seen set grows by exactly the yielded ids |
| Discovery.GetMeetings | session.py:93-113 | the loop's yielded ids, offsets sent and stop flag are those of `Discover` |
| Discovery.DiscoverAfterPrepends | session.py:96-113 | continuing the loop after some requests is running it from the start with those requests in front |
| Discovery.CardinalityAfterYield | session.py:98-109 | adding distinct unseen ids grows the seen set by their number |
| Discovery.DiscoverYieldsFresh | session.py:104-111 | no yielded id is empty, known beforehand, or yielded twice, and each comes from a requested page |
| Discovery.DiscoverEntries | session.py:98 | the `entry` of each request is the number of ids known at the start plus the number yielded before it |
| Discovery.DiscoverStopsOnlyOnEmptyPage | session.py:96-113 | each request gets the page at its own offset; the loop ends by itself exactly on a page without `sid` inputs, and otherwise spends all requests |
| Discovery.NothingNewOnKnownPage | session.py:104-111 | a page of empty or known ids yields nothing and leaves the seen set unchanged |
| Discovery.StuckPageRepeats | session.py:96-113 | if the page at the current offset is non-empty but holds only empty or known ids, nothing more is yielded and every request repeats that offset; as long as the portal returns the same page for that offset, the loop never ends by itself |
| Metadata.Search | session.py:141-154 | `re.search` finds the leftmost position where the date pattern matches, or reports that it matches nowhere |
| Metadata.ReadRow | session.py:144-171 | one row's cells are applied to the record as `Row` describes: rows of fewer than two cells are skipped, the stripped label selects the field, and an invalid `Termin:` date raises |
| Metadata.GetMetadata | session.py:132-173 | the loop returns the record, or the exception, that `MeetingOf` describes |
| Metadata.FailureStays | session.py:143-160 | once a row has raised, the later rows do not matter |
| Metadata.ApplyFailure | session.py:153-164 | a label and value raise exactly for `Termin:` with a match whose fields `datetime` refuses, and the error carries the value |
| Metadata.RowFailure | session.py:143-164 | a row raises exactly when it is such a `Termin:` row |
| Metadata.ApplyLabels | session.py:168-171 | `Raum:` sets the room and `Gremien:` the committee, each to the value; nothing else touches them |
| Metadata.RowLabels | session.py:143-171 | the same for a row: rows with fewer than two cells and other labels change neither |
| Metadata.ApplyTermin | session.py:153-164 | a `Termin:` value holding the pattern sets valid begin and end and the duration in minutes; any other label or value leaves all three as they were |
| Metadata.RowTermin | session.py:143-164 | the same for a row |
| Metadata.FirstWhereLeast | session.py:143-164 | the first row satisfying a test is found exactly when one exists, and no earlier row satisfies it |
| Metadata.RowsFailure | session.py:143-164 | the loop raises exactly when some row is a `Termin:` row with invalid fields, and it raises for the first such row's value |
| Metadata.RowsLastRowWins | session.py:137-173 | a returned record keeps `sid` and title; room, committee, begin, end and duration come from the last row that set them, and are otherwise absent |
| Metadata.TerminDuration | session.py:156-164 | a `Termin:` value gives begin and end on one date; the duration is the difference of the clock times modulo 1440 minutes, and the plain difference when the end is not earlier |
| Metadata.TerminExample | session.py:141-164 | `29.11.2006, 15:00 Uhr - 15:45 Uhr` gives 15:00 and 15:45 on 29 November 2006 and a duration of 45 |
| Tables.GetUrlFromForm | session.py:198-204 | the URL is `urljoin(base, toURL())` of the form's action and hidden pairs in order |
| Tables.ParseTable | session.py:185-196 | one row of values per row and one value per cell, in order; a cell with a form gives its resolved URL, any other cell its text |
| Tables.FormCellRoundTrip | session.py:190-204 | where resolving is concatenation, a form cell's value is the base followed by a URL that reads back as the form's action and hidden pairs |
| Agenda.BillReference | session.py:217-224 | no marker gives three empty fields; a marked title without a comma raises `ValueError`, and only such a title raises |
| Agenda.Item | session.py:212-233 | an item is made exactly for a row of at least ten cells whose title decodes; it copies the columns by position; a short row raises `IndexError`, a marked title without a comma `ValueError` |
| Agenda.ParseToc | session.py:206-233 | items are yielded in row order with positions 1, 2, 3, …; every row before the failing one is yielded, and the loop stops with that row's exception |
| Agenda.SvRoundTrip | session.py:218-224 | `[Vorlage: SV-YYYY-NNNN,…` at the start of a title decodes to `YYYY`, `NNNN` and `SV-YYYY-NNNN` |
| Agenda.PlainRoundTrip | session.py:221-224 | `[Vorlage: YYYY-NNNN,…` at the start of a title with no `[Vorlage: SV-` after the comma decodes to `YYYY`, `NNNN` and `YYYY-NNNN` |
| Agenda.ShiftedMarker | session.py:217-224 | three characters before the `SV-` marker shift every decoded field, because the offsets count from the start of the title |
| Attachments.ScrapeAttachmentsPage | session.py:235-258 | a page with the "not accessible" sentence gives exactly one `'404'` record; otherwise one `'OK'` record per form, in order, with `base_url + toURL()` |
| Attachments.OutcomesExclusive | session.py:241-258 | a `'404'` record never comes with another record, and otherwise every record is `'OK'` for the session |
| Attachments.FileUrlRoundTrip | session.py:246-253 | an `'OK'` record's file URL is the base followed by a URL that reads back as the form's action and hidden pairs |
| ChangeDetection.ParseBanner | session.py:124-125 | a banner date that parses is a valid datetime |
| ChangeDetection.ParseSince | session.py:128 | a stored timestamp that parses is a valid datetime |
| ChangeDetection.HasWebsiteChanged | session.py:120-130 | a missing or unreadable banner raises, whether or not `since` is given; a readable banner without `since` gives `True`; a successful answer with a `since` means its first 16 characters were readable and is `since < banner time` |
| ChangeDetection.BannerRoundTrip | session.py:124-125 | a banner date written as `DD.MM.YYYY, HH:MM` reads back as the moment it was written from |
| ChangeDetection.SinceRoundTrip | session.py:128 | the first 16 characters of `str(datetime)` read back as that moment |
| ChangeDetection.ChangedIffLater | session.py:126-130 | with both timestamps readable, the site changed exactly when fewer minutes had elapsed at `since` than at the banner's time, so equal times are no change |
| ChangeDetection.ChangedOnWrittenTimes | session.py:120-130 | after any 25-character prefix, a banner for `web` and a stored timestamp for `stored` give `stored < web`; no stored timestamp gives `True` |

## Left out

- HTTP: `requests.get` is not modelled. Result pages come from a `fetch` function parameter, and the other pages are inputs.
- HTML parsing: BeautifulSoup is not modelled. A page is given as what `find`, `find_all`, `.form` and `get_text()` would return.
- `urljoin` (section 5.2 of RFC 3986) is a function parameter of `ParseTable` and `GetUrlFromForm`. Only resolution by concatenation is used in a lemma.
- Missing attributes are not modelled: `tag['value']`, `tag['name']` and `form['action']` on elements without them raise `KeyError` in the source. Attribute values are plain strings here.
- The `print` diagnostics of `get_metadata` and `scrape_attachments_page` are not modelled. An unparseable `Termin:` value leaves begin, end and duration absent, as in the source.
- `get_metadata` stores `str(begin)`, `str(end)` and `str(duration)`. The model keeps the datetime values and the integer they are rendered from.
- Metadata.Search: `\d` and `int()` accept every Unicode decimal digit, but the model accepts only `0`–`9`. `\s` is the whitespace set of `IsSpace`.
- Discovery.GetMeetings: makes at most `fuel` requests, because the source loop need not end (see `StuckPageRepeats`). The search parameters other than `entry` and the unused counter `i` are left out.
- Discovery.GetMeetings: a result page without `<table width="100%">` makes `find` return `None`, and `None.find_all` raises `AttributeError`, ending the generator. `fetch` always returns a list of `sid` values, so that exception is not modelled.
- Metadata.ApplyFailure: the `ValueError` that `datetime(...)` raises carries datetime's own message (such as "month must be in 1..12"). `InvalidDateTime` carries the cell value instead, so that the failing row can be identified; the same holds for Metadata.RowFailure and Metadata.RowsFailure.
- Generators (`get_meetings`, `parse_toc`, `scrape_attachments_page`) are run to their end. A consumer that stops early is not modelled.
- ChangeDetection.ParseBanner: accepts only two-digit day, month, hour and minute, only ASCII digits `0`–`9`, no space-padded day, and a single whitespace character. `strptime` reads its numbers with `\d`, which matches every Unicode decimal digit; it also accepts one-digit fields, a day written as a space and one digit, and runs of whitespace. So some banners it reads give `BadBanner` here.
- ChangeDetection.ParseSince: has the same restrictions for the stored timestamp: fixed width, only ASCII digits `0`–`9`, no space-padded day, a single whitespace character.
- ChangeDetection.HasWebsiteChanged: inherits those two restrictions; its answer agrees with the source when both timestamps use two-digit fields of ASCII digits and a single whitespace character.
- `get_toc` only fetches a page and chains `parse_table` and `parse_toc`, so it is not part of this model. `SessionFinder.__iter__` and the constructors only format the base URL, which is a parameter here.
- Database and export code, the `__main__` block, `COMMITTEES` and `locale.setlocale` are not part of this model.
