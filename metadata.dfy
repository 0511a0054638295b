/**
 * `RubinScraper.get_metadata`: a meeting's record is built from its page
 * title and the rows of its info table. The rows arrive as the texts of
 * their `<td>` cells; the first two cells of a row, stripped, are a label and
 * a value. `Termin:` carries the date and the clock times, `Raum:` the room
 * and `Gremien:` the committee; every other label is ignored.
 */
module Metadata {
  import opened Wrappers
  import opened Text
  import opened DateTimes

  /** The record of one meeting; absent fields are keys the dictionary never received. */
  datatype Meeting = Meeting(
    sid: string,
    title: string,
    begin: Option<DateTime>,
    end: Option<DateTime>,
    duration: Option<int>,
    location: Option<string>,
    body: Option<string>)

  /** The exceptions `get_metadata` lets escape. */
  datatype MetadataError =
    | MissingTitle            // no `<b class="Suchueberschrift">`: `None.get_text()`
    | MissingInfoTable        // no `<div class="InfoBlock">` holding a `<table>`
    | InvalidDateTime(value: string)  // `datetime(...)` refused the matched fields

  /** Length of every match of the `Termin:` pattern: `DD.MM.YYYY,_HH:MM_Uhr_-_HH:MM_Uhr`. */
  const TerminWidth: nat := 33

  /**
   * The date pattern matches `s` at `i`: digits where the pattern has `\d`,
   * whitespace where it has `\s`, and the literal characters elsewhere.
   */
  predicate MatchesAt(s: string, i: nat)
  {
    && i + TerminWidth <= |s|
    && DigitsAt(s, i, 2) && s[i + 2] == '.' && DigitsAt(s, i + 3, 2) && s[i + 5] == '.'
    && DigitsAt(s, i + 6, 4) && s[i + 10] == ',' && IsSpace(s[i + 11])
    && DigitsAt(s, i + 12, 2) && s[i + 14] == ':' && DigitsAt(s, i + 15, 2)
    && IsSpace(s[i + 17]) && s[i + 18] == 'U' && s[i + 19] == 'h' && s[i + 20] == 'r'
    && IsSpace(s[i + 21]) && s[i + 22] == '-' && IsSpace(s[i + 23])
    && DigitsAt(s, i + 24, 2) && s[i + 26] == ':' && DigitsAt(s, i + 27, 2)
    && IsSpace(s[i + 29]) && s[i + 30] == 'U' && s[i + 31] == 'h' && s[i + 32] == 'r'
  }

  /** `re.search`: the leftmost position at or after `from` where the pattern matches. */
  function Search(s: string, from: nat): (r: Option<nat>)
    ensures r.Some? ==> from <= r.value && MatchesAt(s, r.value)
    ensures r.Some? ==> forall j :: from <= j < r.value ==> !MatchesAt(s, j)
    ensures r.None? ==> forall j :: from <= j ==> !MatchesAt(s, j)
    decreases |s| - from
  {
    if from + TerminWidth > |s| then None
    else if MatchesAt(s, from) then Some(from)
    else Search(s, from + 1)
  }

  /** The groups of a match read as numbers: `begin` and `end` share the date and differ in the clock time. */
  function TerminAt(s: string, i: nat): (DateTime, DateTime)
    requires MatchesAt(s, i)
  {
    var day, month, year := NumberAt(s, i, 2), NumberAt(s, i + 3, 2), NumberAt(s, i + 6, 4);
    (DateTime(year, month, day, NumberAt(s, i + 12, 2), NumberAt(s, i + 15, 2)),
     DateTime(year, month, day, NumberAt(s, i + 24, 2), NumberAt(s, i + 27, 2)))
  }

  /** The begin and end a `Termin:` value denotes, if the pattern occurs in it. */
  function Termin(value: string): Option<(DateTime, DateTime)>
  {
    match Search(value, 0)
    case None => None
    case Some(i) => Some(TerminAt(value, i))
  }

  /** The labels `get_metadata` acts on; any other label is `Other`. */
  datatype Label = Date | Room | Committee | Other

  function LabelOf(key: string): Label
  {
    if key == "Termin:" then Date
    else if key == "Raum:" then Room
    else if key == "Gremien:" then Committee
    else Other
  }

  /** One label and value applied to the record. */
  function ApplyRow(m: Meeting, kind: Label, value: string): Result<Meeting, MetadataError>
  {
    match kind
    case Date =>
      (match Termin(value)
       case None => Success(m)
       case Some((b, e)) =>
         if Valid(b) && Valid(e) then
           Success(m.(begin := Some(b), end := Some(e), duration := Some(TimedeltaSeconds(b, e) / 60)))
         else Failure(InvalidDateTime(value)))
    case Room => Success(m.(location := Some(value)))
    case Committee => Success(m.(body := Some(value)))
    case Other => Success(m)
  }

  /** A row with fewer than two cells is skipped; otherwise its first two cells, stripped, are applied. */
  function Row(m: Meeting, cells: seq<string>): Result<Meeting, MetadataError>
  {
    if |cells| < 2 then Success(m) else ApplyRow(m, LabelOf(Strip(cells[0])), Strip(cells[1]))
  }

  /** The rows applied in order; the first exception ends the loop. */
  function Rows(m: Meeting, rows: seq<seq<string>>): Result<Meeting, MetadataError>
  {
    if rows == [] then Success(m)
    else
      match Rows(m, rows[..|rows| - 1])
      case Failure(e) => Failure(e)
      case Success(m') => Row(m', rows[|rows| - 1])
  }

  /** The record `get_metadata` returns for the title and info table of a meeting page. */
  function MeetingOf(sid: string, title: Option<string>, table: Option<seq<seq<string>>>): Result<Meeting, MetadataError>
  {
    if title.None? then Failure(MissingTitle)
    else if table.None? then Failure(MissingInfoTable)
    else Rows(Meeting(sid, title.value, None, None, None, None, None), table.value)
  }

  /** The body of the row loop of `get_metadata`: one row's cells applied to the record. */
  method ReadRow(meeting: Meeting, td: seq<string>) returns (r: Result<Meeting, MetadataError>)
    ensures r == Row(meeting, td)
  {
    if |td| < 2 {
      return Success(meeting);
    }
    var key, value := Strip(td[0]), Strip(td[1]);
    ghost var kind := LabelOf(key);
    assert Row(meeting, td) == ApplyRow(meeting, kind, value);
    r := Success(meeting);
    if key == "Termin:" {
      assert kind == Date;
      var result := Search(value, 0);
      assert result.None? ==> Termin(value).None?;
      if result.Some? {
        assert Termin(value) == Some(TerminAt(value, result.value));
        var (begin, end) := TerminAt(value, result.value);
        if !(Valid(begin) && Valid(end)) {
          return Failure(InvalidDateTime(value));
        }
        var duration := TimedeltaSeconds(begin, end);
        r := Success(meeting.(begin := Some(begin), end := Some(end), duration := Some(duration / 60)));
      }
    } else if key == "Raum:" {
      assert kind == Room;
      r := Success(meeting.(location := Some(value)));
    } else if key == "Gremien:" {
      assert kind == Committee;
      r := Success(meeting.(body := Some(value)));
    } else {
      assert kind == Other;
    }
  }

  /** The loop of `get_metadata`, filling the record row by row; the first exception ends it. */
  method GetMetadata(sid: string, title: Option<string>, table: Option<seq<seq<string>>>)
    returns (r: Result<Meeting, MetadataError>)
    ensures r == MeetingOf(sid, title, table)
  {
    if title.None? {
      return Failure(MissingTitle);
    }
    if table.None? {
      return Failure(MissingInfoTable);
    }
    var start := Meeting(sid, title.value, None, None, None, None, None);
    var meeting := start;
    var rows := table.value;
    for k := 0 to |rows|
      invariant Rows(start, rows[..k]) == Success(meeting)
    {
      RowsStep(start, rows, k);
      var next := ReadRow(meeting, rows[k]);
      if next.Failure? {
        FailureStays(start, rows, k + 1);
        return next;
      }
      meeting := next.value;
    }
    assert rows[..|rows|] == rows;
    return Success(meeting);
  }

  /** The loop's step: the rows up to `k` and then row `k`. */
  lemma RowsStep(m: Meeting, rows: seq<seq<string>>, k: nat)
    requires k < |rows|
    ensures Rows(m, rows[..k + 1]) ==
      match Rows(m, rows[..k])
      case Failure(e) => Failure(e)
      case Success(m') => Row(m', rows[k])
  {
    assert rows[..k + 1][..k] == rows[..k];
  }

  /** Once a row has raised, the rows after it are never looked at. */
  lemma {:induction false} FailureStays(m: Meeting, rows: seq<seq<string>>, k: nat)
    requires k <= |rows| && Rows(m, rows[..k]).Failure?
    ensures Rows(m, rows) == Rows(m, rows[..k])
    decreases |rows| - k
  {
    if k < |rows| {
      RowsStep(m, rows, k);
      FailureStays(m, rows, k + 1);
    } else {
      assert rows[..k] == rows;
    }
  }

  /** The stripped value of a row labelled `kind`; `None` for other rows and rows with fewer than two cells. */
  function CellValue(cells: seq<string>, kind: Label): Option<string>
  {
    if |cells| >= 2 && LabelOf(Strip(cells[0])) == kind then Some(Strip(cells[1])) else None
  }

  /** The begin and end of a `Termin:` row whose value holds the pattern. */
  function CellTermin(cells: seq<string>): Option<(DateTime, DateTime)>
  {
    match CellValue(cells, Date)
    case None => None
    case Some(v) => Termin(v)
  }

  /** A row that raises: a `Termin:` value holding the pattern with fields `datetime` refuses. */
  predicate BadTermin(cells: seq<string>)
  {
    CellTermin(cells).Some? && !(Valid(CellTermin(cells).value.0) && Valid(CellTermin(cells).value.1))
  }

  /** `Latest(earlier, later)`: the later value when there is one. */
  function Latest<T>(earlier: Option<T>, later: Option<T>): Option<T>
  {
    if later.Some? then later else earlier
  }

  /** Applying a label raises only for a `Termin:` value holding the pattern with fields `datetime` refuses. */
  lemma ApplyFailure(m: Meeting, kind: Label, value: string)
    ensures ApplyRow(m, kind, value).Failure? <==>
      kind == Date && Termin(value).Some? && !(Valid(Termin(value).value.0) && Valid(Termin(value).value.1))
    ensures ApplyRow(m, kind, value).Failure? ==> ApplyRow(m, kind, value).error == InvalidDateTime(value)
  {
    match kind
    case Date =>
    case Room =>
    case Committee =>
    case Other =>
  }

  /** One row raises exactly when it is a bad `Termin:` row, and then for its value. */
  lemma RowFailure(m: Meeting, cells: seq<string>)
    ensures Row(m, cells).Failure? <==> BadTermin(cells)
    ensures Row(m, cells).Failure? ==> Row(m, cells).error == InvalidDateTime(Strip(cells[1]))
  {
    if |cells| >= 2 {
      ApplyFailure(m, LabelOf(Strip(cells[0])), Strip(cells[1]));
    }
  }

  /** Applying one label sets the room or committee when the label names it, and nothing else of them. */
  lemma ApplyLabels(m: Meeting, kind: Label, value: string)
    requires ApplyRow(m, kind, value).Success?
    ensures ApplyRow(m, kind, value).value.sid == m.sid && ApplyRow(m, kind, value).value.title == m.title
    ensures ApplyRow(m, kind, value).value.location == if kind == Room then Some(value) else m.location
    ensures ApplyRow(m, kind, value).value.body == if kind == Committee then Some(value) else m.body
  {
    match kind
    case Date =>
    case Room =>
    case Committee =>
    case Other =>
  }

  /** One row sets the room or committee when its label names it, and nothing else of them. */
  lemma RowLabels(m: Meeting, cells: seq<string>)
    requires Row(m, cells).Success?
    ensures Row(m, cells).value.sid == m.sid && Row(m, cells).value.title == m.title
    ensures Row(m, cells).value.location == Latest(m.location, CellValue(cells, Room))
    ensures Row(m, cells).value.body == Latest(m.body, CellValue(cells, Committee))
  {
    if |cells| >= 2 {
      ApplyLabels(m, LabelOf(Strip(cells[0])), Strip(cells[1]));
    }
  }

  /** Applying a label sets begin, end and duration exactly for a `Termin:` value holding the pattern. */
  lemma ApplyTermin(m: Meeting, kind: Label, value: string)
    requires ApplyRow(m, kind, value).Success?
    ensures !(kind == Date && Termin(value).Some?) ==>
      ApplyRow(m, kind, value).value.begin == m.begin && ApplyRow(m, kind, value).value.end == m.end
      && ApplyRow(m, kind, value).value.duration == m.duration
    ensures kind == Date && Termin(value).Some? ==>
      Valid(Termin(value).value.0) && Valid(Termin(value).value.1)
      && ApplyRow(m, kind, value).value.begin == Some(Termin(value).value.0)
      && ApplyRow(m, kind, value).value.end == Some(Termin(value).value.1)
      && ApplyRow(m, kind, value).value.duration == Some(TimedeltaSeconds(Termin(value).value.0, Termin(value).value.1) / 60)
  {
    match kind
    case Date =>
    case Room =>
    case Committee =>
    case Other =>
  }

  /** One row sets begin, end and duration exactly when it is a `Termin:` row holding the pattern. */
  lemma RowTermin(m: Meeting, cells: seq<string>)
    requires Row(m, cells).Success?
    ensures CellTermin(cells).None? ==>
      Row(m, cells).value.begin == m.begin && Row(m, cells).value.end == m.end
      && Row(m, cells).value.duration == m.duration
    ensures CellTermin(cells).Some? ==>
      Valid(CellTermin(cells).value.0) && Valid(CellTermin(cells).value.1)
      && Row(m, cells).value.begin == Some(CellTermin(cells).value.0)
      && Row(m, cells).value.end == Some(CellTermin(cells).value.1)
      && Row(m, cells).value.duration == Some(TimedeltaSeconds(CellTermin(cells).value.0, CellTermin(cells).value.1) / 60)
  {
    if |cells| >= 2 {
      ApplyTermin(m, LabelOf(Strip(cells[0])), Strip(cells[1]));
    }
  }

  /** The index of the first row satisfying `p`, if any. */
  function FirstWhere(p: seq<string> -> bool, rows: seq<seq<string>>): Option<nat>
  {
    if rows == [] then None
    else
      match FirstWhere(p, rows[..|rows| - 1])
      case Some(k) => Some(k)
      case None => if p(rows[|rows| - 1]) then Some(|rows| - 1) else None
  }

  /** `FirstWhere` finds a row exactly when one satisfies `p`, and then the first one. */
  lemma {:induction false} FirstWhereLeast(p: seq<string> -> bool, rows: seq<seq<string>>)
    ensures FirstWhere(p, rows).None? <==> forall j :: 0 <= j < |rows| ==> !p(rows[j])
    ensures FirstWhere(p, rows).Some? ==>
      FirstWhere(p, rows).value < |rows| && p(rows[FirstWhere(p, rows).value])
      && forall j :: 0 <= j < FirstWhere(p, rows).value ==> !p(rows[j])
  {
    if rows != [] {
      var init := rows[..|rows| - 1];
      FirstWhereLeast(p, init);
      assert forall j :: 0 <= j < |init| ==> rows[j] == init[j];
    }
  }

  /**
   * The loop raises exactly when some row is a `Termin:` row with an invalid
   * date or time (`FirstWhereLeast`), and then it raises for the first such row.
   */
  lemma {:induction false} RowsFailure(m: Meeting, rows: seq<seq<string>>)
    ensures Rows(m, rows).Failure? <==> FirstWhere(BadTermin, rows).Some?
    ensures Rows(m, rows).Failure? ==>
      FirstWhere(BadTermin, rows).value < |rows| && |rows[FirstWhere(BadTermin, rows).value]| >= 2
      && Rows(m, rows).error == InvalidDateTime(Strip(rows[FirstWhere(BadTermin, rows).value][1]))
  {
    if rows != [] {
      var init := rows[..|rows| - 1];
      RowsFailure(m, init);
      FirstWhereLeast(BadTermin, rows);
      if Rows(m, init).Success? {
        RowFailure(Rows(m, init).value, rows[|rows| - 1]);
      } else {
        assert rows[FirstWhere(BadTermin, init).value] == init[FirstWhere(BadTermin, init).value];
      }
    }
  }

  /** The value of the last row labelled `kind`, if any. */
  function LastValue(rows: seq<seq<string>>, kind: Label): Option<string>
  {
    if rows == [] then None else Latest(LastValue(rows[..|rows| - 1], kind), CellValue(rows[|rows| - 1], kind))
  }

  /** The begin and end of the last `Termin:` row whose value holds the pattern, if any. */
  function LastTermin(rows: seq<seq<string>>): Option<(DateTime, DateTime)>
  {
    if rows == [] then None else Latest(LastTermin(rows[..|rows| - 1]), CellTermin(rows[|rows| - 1]))
  }

  /**
   * A record that comes out of the loop keeps its `sid` and title; its room and
   * committee are those of the last `Raum:` and `Gremien:` rows; its begin and
   * end are those of the last `Termin:` row holding the pattern, and its
   * duration is the minutes between them. Fields no row set are as they were.
   */
  lemma {:induction false} RowsLastRowWins(m: Meeting, rows: seq<seq<string>>)
    requires Rows(m, rows).Success?
    ensures Rows(m, rows).value.sid == m.sid && Rows(m, rows).value.title == m.title
    ensures Rows(m, rows).value.location == Latest(m.location, LastValue(rows, Room))
    ensures Rows(m, rows).value.body == Latest(m.body, LastValue(rows, Committee))
    ensures LastTermin(rows).None? ==>
      Rows(m, rows).value.begin == m.begin && Rows(m, rows).value.end == m.end
      && Rows(m, rows).value.duration == m.duration
    ensures LastTermin(rows).Some? ==> Valid(LastTermin(rows).value.0) && Valid(LastTermin(rows).value.1)
    ensures LastTermin(rows).Some? ==>
      Rows(m, rows).value.begin == Some(LastTermin(rows).value.0)
      && Rows(m, rows).value.end == Some(LastTermin(rows).value.1)
      && Rows(m, rows).value.duration == Some(TimedeltaSeconds(LastTermin(rows).value.0, LastTermin(rows).value.1) / 60)
  {
    if rows != [] {
      var init, last := rows[..|rows| - 1], rows[|rows| - 1];
      RowsLastRowWins(m, init);
      RowLabels(Rows(m, init).value, last);
      RowTermin(Rows(m, init).value, last);
    }
  }

  /**
   * A `Termin:` value sets begin and end on one calendar date, and the
   * duration is the difference of the clock times in minutes modulo a day:
   * an end before the begin gives almost a whole day.
   */
  lemma TerminDuration(m: Meeting, value: string)
    requires Termin(value).Some? && ApplyRow(m, Date, value).Success?
    ensures var (b, e) := Termin(value).value;
      && b.year == e.year && b.month == e.month && b.day == e.day
      && ApplyRow(m, Date, value).value.duration
         == Some(((e.hour * 60 + e.minute) - (b.hour * 60 + b.minute)) % 1440)
      && (!Before(e, b) ==>
          ApplyRow(m, Date, value).value.duration == Some((e.hour * 60 + e.minute) - (b.hour * 60 + b.minute)))
  {
    var (b, e) := Termin(value).value;
    SameDayDuration(b, e);
  }

  lemma TwoDigits(s: string, i: nat)
    requires i + 2 <= |s| && IsDigit(s[i]) && IsDigit(s[i + 1])
    ensures DigitsAt(s, i, 2)
    ensures NumberAt(s, i, 2) == 10 * (s[i] as int - '0' as int) + (s[i + 1] as int - '0' as int)
  {
    var d := s[i..i + 2];
    assert d[0] == s[i] && d[1] == s[i + 1];
    assert Value(d[..1]) == s[i] as int - '0' as int by {
      assert d[..1][..0] == [];
    }
  }

  lemma FourDigits(s: string, i: nat)
    requires i + 4 <= |s| && IsDigit(s[i]) && IsDigit(s[i + 1]) && IsDigit(s[i + 2]) && IsDigit(s[i + 3])
    ensures DigitsAt(s, i, 4)
    ensures NumberAt(s, i, 4) == 1000 * (s[i] as int - '0' as int) + 100 * (s[i + 1] as int - '0' as int)
                                 + 10 * (s[i + 2] as int - '0' as int) + (s[i + 3] as int - '0' as int)
  {
    var d := s[i..i + 4];
    assert d[0] == s[i] && d[1] == s[i + 1] && d[2] == s[i + 2] && d[3] == s[i + 3];
    assert Value(d[..1]) == s[i] as int - '0' as int by {
      assert d[..1][..0] == [];
    }
    assert Value(d[..2]) == 10 * Value(d[..1]) + (s[i + 1] as int - '0' as int) by {
      assert d[..2][..1] == d[..1];
    }
    assert Value(d[..3]) == 10 * Value(d[..2]) + (s[i + 2] as int - '0' as int) by {
      assert d[..3][..2] == d[..2];
    }
  }

  /** The digits of the date in the example below. */
  lemma ExampleDate(s: string)
    requires s == "29.11.2006, 15:00 Uhr - 15:45 Uhr"
    ensures |s| == 33
    ensures s[0] == '2' && s[1] == '9' && s[3] == '1' && s[4] == '1'
    ensures s[6] == '2' && s[7] == '0' && s[8] == '0' && s[9] == '6'
  {
  }

  /** The digits of the clock times in the example below. */
  lemma ExampleTimes(s: string)
    requires s == "29.11.2006, 15:00 Uhr - 15:45 Uhr"
    ensures |s| == 33
    ensures s[12] == '1' && s[13] == '5' && s[15] == '0' && s[16] == '0'
    ensures s[24] == '1' && s[25] == '5' && s[27] == '4' && s[28] == '5'
  {
  }

  /** The other characters of the example below. */
  lemma ExampleSeparators(s: string)
    requires s == "29.11.2006, 15:00 Uhr - 15:45 Uhr"
    ensures |s| == 33
    ensures s[2] == '.' && s[5] == '.' && s[10] == ',' && s[14] == ':' && s[22] == '-' && s[26] == ':'
    ensures s[11] == ' ' && s[17] == ' ' && s[21] == ' ' && s[23] == ' ' && s[29] == ' '
    ensures s[18] == 'U' && s[19] == 'h' && s[20] == 'r' && s[30] == 'U' && s[31] == 'h' && s[32] == 'r'
  {
  }

  /** The value of the example below holds the pattern at its start. */
  lemma ExampleMatches(s: string)
    requires s == "29.11.2006, 15:00 Uhr - 15:45 Uhr"
    ensures MatchesAt(s, 0)
    ensures TerminAt(s, 0) == (DateTime(2006, 11, 29, 15, 0), DateTime(2006, 11, 29, 15, 45))
  {
    ExampleDate(s);
    ExampleTimes(s);
    ExampleSeparators(s);
    TwoDigits(s, 0);
    TwoDigits(s, 3);
    FourDigits(s, 6);
    TwoDigits(s, 12);
    TwoDigits(s, 15);
    TwoDigits(s, 24);
    TwoDigits(s, 27);
  }

  /**
   * The value `29.11.2006, 15:00 Uhr - 15:45 Uhr`
   * gives a meeting from 15:00 to 15:45 on 29 November 2006 lasting 45 minutes.
   */
  lemma TerminExample(m: Meeting, value: string)
    requires value == "29.11.2006, 15:00 Uhr - 15:45 Uhr"
    ensures Termin(value) == Some((DateTime(2006, 11, 29, 15, 0), DateTime(2006, 11, 29, 15, 45)))
    ensures ApplyRow(m, Date, value)
            == Success(m.(begin := Some(DateTime(2006, 11, 29, 15, 0)),
                          end := Some(DateTime(2006, 11, 29, 15, 45)),
                          duration := Some(45)))
  {
    ExampleMatches(value);
    assert Search(value, 0) == Some(0);
    SameDayDuration(DateTime(2006, 11, 29, 15, 0), DateTime(2006, 11, 29, 15, 45));
  }
}
