/**
 * `RubinScraper.parse_toc`: every row of a meeting's agenda table becomes an
 * agenda item. The columns are copied by position, the item is numbered from
 * 1 in row order, and a bill reference (year, number, id) is cut out of the
 * full title when it carries a `[Vorlage: ` marker.
 */
module Agenda {
  import opened Wrappers
  import opened Text

  datatype AgendaItem = AgendaItem(
    sid: string,
    status: string,
    topNumber: string,
    column3: string,
    detailsLink: string,
    titleFull: string,
    documentLink: string,
    attachmentLink: string,
    decisionLink: string,
    column9: string,
    column10: string,
    year: string,
    billNumber: string,
    billId: string,
    position: nat)

  /** The exceptions that end the generator: a row too short, or a marker without a comma. */
  datatype TocError = IndexError | ValueError

  /** The bill fields of one title; all three are empty when the title has no marker. */
  datatype Bill = Bill(year: string, number: string, id: string)

  const Marker := "[Vorlage: "
  const SvMarker := "[Vorlage: SV-"
  /** `len("Vorlage: SV-")` and `len("Vorlage: ")`: the offsets are counted from the start of the title. */
  const FirstLength: nat := 12
  const SecondLength: nat := 9

  /**
   * The bill reference of a full title. The slices are taken at fixed
   * offsets from the start of the title, wherever the marker is; `billid`
   * runs from offset 10 to the first comma, and a marked title without a
   * comma raises.
   */
  function BillReference(title: string): (r: Result<Bill, TocError>)
    ensures !Contains(title, Marker) ==> r == Success(Bill("", "", ""))
    ensures r.Failure? <==> Contains(title, Marker) && ',' !in title
    ensures r.Failure? ==> r.error == ValueError
    ensures r.Success? && Contains(title, Marker) ==>
      |r.value.year| <= 4 && |r.value.number| <= 4 && |r.value.id| < |title|
  {
    if !Contains(title, Marker) then Success(Bill("", "", ""))
    else
      match IndexOf(title, ',')
      case None => Failure(ValueError)
      case Some(comma) =>
        var id := Slice(title, 10, comma);
        if Contains(title, SvMarker) then
          Success(Bill(Slice(title, FirstLength + 1, FirstLength + 5), Slice(title, FirstLength + 6, FirstLength + 10), id))
        else
          Success(Bill(Slice(title, SecondLength + 1, SecondLength + 5), Slice(title, SecondLength + 6, SecondLength + 10), id))
  }

  /**
   * The item of one row at a 1-based position. Reading `top[4]` raises on a
   * row of fewer than five cells, the bill reference may raise next, and the
   * remaining columns up to `top[9]` raise on a row of fewer than ten.
   */
  function Item(sid: string, top: seq<string>, position: nat): (r: Result<AgendaItem, TocError>)
    ensures r.Success? <==> |top| >= 10 && BillReference(top[4]).Success?
    ensures r.Failure? ==>
      r.error == (if |top| >= 5 && BillReference(top[4]).Failure? then ValueError else IndexError)
    ensures r.Success? ==>
      && r.value.sid == sid && r.value.position == position
      && r.value.status == top[0] && r.value.topNumber == top[1] && r.value.column3 == top[2]
      && r.value.detailsLink == top[3] && r.value.titleFull == top[4] && r.value.documentLink == top[5]
      && r.value.attachmentLink == top[6] && r.value.decisionLink == top[7]
      && r.value.column9 == top[8] && r.value.column10 == top[9]
      && Bill(r.value.year, r.value.billNumber, r.value.billId) == BillReference(top[4]).value
  {
    if |top| < 5 then Failure(IndexError)
    else
      match BillReference(top[4])
      case Failure(e) => Failure(e)
      case Success(b) =>
        if |top| < 10 then Failure(IndexError)
        else
          Success(AgendaItem(sid, top[0], top[1], top[2], top[3], top[4], top[5], top[6], top[7], top[8], top[9],
                             b.year, b.number, b.id, position))
  }

  /**
   * The generator of `parse_toc`, run until it stops: the items it yields,
   * in row order, and the exception that ended it, if any. Items are
   * numbered 1, 2, 3, ...; the rows before a failing row are all yielded.
   */
  method ParseToc(sid: string, tops: seq<seq<string>>) returns (items: seq<AgendaItem>, error: Option<TocError>)
    ensures |items| <= |tops|
    ensures forall k :: 0 <= k < |items| ==> Item(sid, tops[k], k + 1) == Success(items[k])
    ensures forall k :: 0 <= k < |items| ==> items[k].position == k + 1 && items[k].sid == sid
    ensures error.None? <==> |items| == |tops|
    ensures error.Some? ==> Item(sid, tops[|items|], |items| + 1) == Failure(error.value)
  {
    var count := 0;
    items, error := [], None;
    for n := 0 to |tops|
      invariant count == n == |items|
      invariant forall k :: 0 <= k < n ==> Item(sid, tops[k], k + 1) == Success(items[k])
      invariant forall k :: 0 <= k < n ==> items[k].position == k + 1 && items[k].sid == sid
    {
      var top := tops[n];
      count := count + 1;
      if |top| < 5 {
        return items, Some(IndexError);
      }
      var title := top[4];
      var year, number, billId := "", "", "";
      if Contains(title, Marker) {
        if Contains(title, SvMarker) {
          year := Slice(title, FirstLength + 1, FirstLength + 5);
          number := Slice(title, FirstLength + 6, FirstLength + 10);
        } else {
          year := Slice(title, SecondLength + 1, SecondLength + 5);
          number := Slice(title, SecondLength + 6, SecondLength + 10);
        }
        var comma := IndexOf(title, ',');
        if comma.None? {
          return items, Some(ValueError);
        }
        billId := Slice(title, 10, comma.value);
      }
      if |top| < 10 {
        return items, Some(IndexError);
      }
      items := items + [AgendaItem(sid, top[0], top[1], top[2], top[3], top[4], top[5], top[6], top[7], top[8], top[9],
                                   year, number, billId, count)];
    }
  }

  /** The characters of the two markers that the decoding lemmas need. */
  lemma MarkerChars()
    ensures |Marker| == 10 && |SvMarker| == 13 && SvMarker[..10] == Marker
    ensures ',' !in SvMarker && '[' !in Marker[1..] && SvMarker == Marker + "SV-"
    ensures SvMarker[0] == '[' && SvMarker[10] == 'S'
  {
  }

  /** A piece of a concatenation is the slice at its offset. */
  lemma SliceOfConcat(a: string, b: string, c: string)
    ensures Slice(a + b + c, |a|, |a| + |b|) == b
  {
    var t := a + b + c;
    assert forall k :: 0 <= k < |b| ==> t[|a| + k] == b[k];
  }

  /** A title with the `SV-` marker at `p` and no comma before `head` ends decodes by the `SV-` offsets. */
  lemma SvTitle(t: string, head: string, rest: string, p: nat)
    requires t == head + "," + rest && ',' !in head
    requires p + 13 <= |head| && head[p..p + 13] == SvMarker
    ensures BillReference(t) == Success(Bill(Slice(t, 13, 17), Slice(t, 18, 22), Slice(t, 10, |head|)))
  {
    MarkerChars();
    assert t[p..p + 13] == SvMarker;
    assert t[p..p + 10] == SvMarker[..10];
    assert OccursAt(t, SvMarker, p) && OccursAt(t, Marker, p);
    assert t == head + [','] + rest;
    IndexOfAfter(head, ',', rest);
  }

  /** A title starting with the plain marker, without the `SV-` marker and with no comma before `head` ends. */
  lemma PlainTitle(t: string, head: string, rest: string)
    requires t == head + "," + rest && ',' !in head && !Contains(t, SvMarker)
    requires 10 <= |head| && head[..10] == Marker
    ensures BillReference(t) == Success(Bill(Slice(t, 10, 14), Slice(t, 15, 19), Slice(t, 10, |head|)))
  {
    assert t[..10] == Marker;
    assert OccursAt(t, Marker, 0);
    assert t == head + [','] + rest;
    IndexOfAfter(head, ',', rest);
  }

  /**
   * A title that starts with the plain marker and a field free of `[` whose
   * first character is no `S` holds the `SV-` marker only if the part after
   * the comma does.
   */
  lemma NoSvMarker(f: string, rest: string)
    requires |f| == 9 && '[' !in f && f[0] != 'S' && !Contains(rest, SvMarker)
    ensures !Contains(Marker + f + "," + rest, SvMarker)
  {
    MarkerChars();
    var t := Marker + f + "," + rest;
    forall i ensures !OccursAt(t, SvMarker, i) {
      if i == 0 && |SvMarker| <= |t| {
        assert t[i..i + |SvMarker|][10] == t[10] == f[0];
      } else if 0 < i < 20 && i <= |t| - |SvMarker| {
        assert t[i..i + |SvMarker|][0] == t[i];
        if i < 10 {
          assert t[i] == Marker[1..][i - 1];
        } else if i < 19 {
          assert t[i] == f[i - 10];
        } else {
          assert t[i] == ',';
        }
      } else if 20 <= i {
        OccursInSuffix(Marker + f + ",", rest, SvMarker, i);
      }
    }
  }

  /** Past the end of `a`, `sub` occurs in `a + b` exactly where it occurs in `b`. */
  lemma OccursInSuffix(a: string, b: string, sub: string, i: int)
    requires |a| <= i
    ensures OccursAt(a + b, sub, i) <==> OccursAt(b, sub, i - |a|)
  {
    if i <= |a + b| - |sub| {
      assert (a + b)[i..i + |sub|] == b[i - |a|..i - |a| + |sub|];
    }
  }

  /** A four-character field of digits. */
  predicate Field(s: string)
  {
    |s| == 4 && AllDigits(s)
  }

  /** Four digits, a dash and four digits hold no comma and no `[`. */
  lemma FieldsPlain(year: string, number: string)
    requires Field(year) && Field(number)
    ensures var f := year + "-" + number; |f| == 9 && ',' !in f && '[' !in f && f[0] != 'S'
  {
    var f := year + "-" + number;
    assert forall k :: 0 <= k < 9 ==> f[k] == '-' || IsDigit(f[k]);
  }

  /** Where the fields sit in a title that starts with the `SV-` marker. */
  lemma SvPieces(year: string, number: string, rest: string)
    requires |year| == 4 && |number| == 4
    ensures var t := SvMarker + year + "-" + number + "," + rest;
      && t == SvMarker + (year + "-" + number) + "," + rest
      && Slice(t, 13, 17) == year && Slice(t, 18, 22) == number
      && Slice(t, 10, 22) == "SV-" + year + "-" + number
  {
    var t := SvMarker + year + "-" + number + "," + rest;
    assert t[13..17] == year;
    assert t[18..22] == number;
    assert t[10..22] == "SV-" + year + "-" + number;
  }

  /** Where the fields sit in a title that starts with the plain marker. */
  lemma PlainPieces(year: string, number: string, rest: string)
    requires |year| == 4 && |number| == 4
    ensures var t := Marker + year + "-" + number + "," + rest;
      && t == Marker + (year + "-" + number) + "," + rest
      && Slice(t, 10, 14) == year && Slice(t, 15, 19) == number
      && Slice(t, 10, 19) == year + "-" + number
  {
    var t := Marker + year + "-" + number + "," + rest;
    assert t[10..14] == year;
    assert t[15..19] == number;
    assert t[10..19] == year + "-" + number;
  }

  /** Where the `SV-` offsets fall in a title with three characters before the marker. */
  lemma ShiftedPieces(prefix: string, year: string, number: string, rest: string)
    requires |prefix| == 3 && |year| == 4 && |number| == 4
    ensures var t := prefix + SvMarker + year + "-" + number + "," + rest;
      && t == prefix + SvMarker + (year + "-" + number) + "," + rest
      && (prefix + SvMarker + (year + "-" + number))[3..16] == SvMarker
      && Slice(t, 13, 17) == "SV-" + year[..1]
      && Slice(t, 18, 22) == year[2..] + "-" + number[..1]
      && Slice(t, 10, 25) == "e: SV-" + year + "-" + number
  {
    var t := prefix + SvMarker + year + "-" + number + "," + rest;
    assert t[13..17] == "SV-" + year[..1];
    assert t[18..22] == year[2..] + "-" + number[..1];
    assert t[10..25] == "e: SV-" + year + "-" + number;
    assert (prefix + SvMarker + (year + "-" + number))[3..16] == SvMarker;
  }

  /** `[Vorlage: SV-YYYY-NNNN,...` at the start of a title reads back as year, number and `SV-YYYY-NNNN`. */
  lemma SvRoundTrip(year: string, number: string, rest: string)
    requires Field(year) && Field(number)
    ensures BillReference(SvMarker + year + "-" + number + "," + rest)
            == Success(Bill(year, number, "SV-" + year + "-" + number))
  {
    MarkerChars();
    FieldsPlain(year, number);
    SvPieces(year, number, rest);
    SvTitle(SvMarker + year + "-" + number + "," + rest, SvMarker + (year + "-" + number), rest, 0);
  }

  /**
   * `[Vorlage: YYYY-NNNN,...` at the start of a title, with no
   * `[Vorlage: SV-` after the comma, reads back as year, number and
   * `YYYY-NNNN`.
   */
  lemma PlainRoundTrip(year: string, number: string, rest: string)
    requires Field(year) && Field(number) && !Contains(rest, SvMarker)
    ensures BillReference(Marker + year + "-" + number + "," + rest)
            == Success(Bill(year, number, year + "-" + number))
  {
    MarkerChars();
    FieldsPlain(year, number);
    PlainPieces(year, number, rest);
    var f := year + "-" + number;
    NoSvMarker(f, rest);
    PlainTitle(Marker + f + "," + rest, Marker + f, rest);
  }

  /**
   * The offsets do not follow the marker: three characters before it shift
   * every field, and the id starts inside the marker itself.
   */
  lemma ShiftedMarker(prefix: string, year: string, number: string, rest: string)
    requires |prefix| == 3 && ',' !in prefix && Field(year) && Field(number)
    ensures BillReference(prefix + SvMarker + year + "-" + number + "," + rest)
            == Success(Bill("SV-" + year[..1], year[2..] + "-" + number[..1], "e: SV-" + year + "-" + number))
  {
    MarkerChars();
    FieldsPlain(year, number);
    ShiftedPieces(prefix, year, number, rest);
    var head := prefix + SvMarker + (year + "-" + number);
    SvTitle(head + "," + rest, head, rest, 3);
  }
}
