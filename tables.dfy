/**
 * `RubinScraper.parse_table` and `get_url_from_form`: an agenda table is
 * read cell by cell into strings. A cell holding a form stands for a link;
 * it is replaced by the URL the form submits to, resolved against the
 * portal's base URL.
 */
module Tables {
  import opened Wrappers
  import opened Text
  import opened Forms

  /** A `<td>`: its text and the first `<form>` inside it, if any. */
  datatype Cell = Cell(text: string, form: Option<FormElement>)

  /** The request a cell's form stands for: its action and its hidden inputs in document order. */
  function Target(form: FormElement): Form
  {
    Form(form.action, HiddenValues(form.inputs))
  }

  /** The value of one cell: the resolved link of its form, or else its text. */
  function Entry(urljoin: (string, string) -> string, base: string, cell: Cell): string
  {
    match cell.form
    case None => cell.text
    case Some(f) => urljoin(base, FormUrl(Target(f)))
  }

  function RowEntries(urljoin: (string, string) -> string, base: string, row: seq<Cell>): seq<string>
  {
    seq(|row|, j requires 0 <= j < |row| => Entry(urljoin, base, row[j]))
  }

  /** `get_url_from_form`: the form's hidden inputs are collected and its URL resolved against `base`. */
  method GetUrlFromForm(urljoin: (string, string) -> string, base: string, form: FormElement)
    returns (url: string)
    ensures url == urljoin(base, FormUrl(Target(form)))
  {
    var f := HiddenForm(form);
    var relative := f.ToUrl();
    url := urljoin(base, relative);
  }

  /**
   * `parse_table`: one list of values per row and one value per cell, in
   * order; a form cell gives its resolved link, any other cell its text.
   */
  method ParseTable(urljoin: (string, string) -> string, base: string, table: seq<seq<Cell>>)
    returns (values: seq<seq<string>>)
    ensures |values| == |table|
    ensures forall i :: 0 <= i < |table| ==> |values[i]| == |table[i]|
    ensures forall i, j :: 0 <= i < |table| && 0 <= j < |table[i]| ==>
      values[i][j] == (if table[i][j].form.None? then table[i][j].text
                       else urljoin(base, FormUrl(Target(table[i][j].form.value))))
  {
    values := [];
    for i := 0 to |table|
      invariant |values| == i
      invariant forall k :: 0 <= k < i ==> values[k] == RowEntries(urljoin, base, table[k])
    {
      var cells := table[i];
      var row: seq<string> := [];
      for j := 0 to |cells|
        invariant row == RowEntries(urljoin, base, cells[..j])
      {
        var td := cells[j];
        if td.form.Some? {
          var url := GetUrlFromForm(urljoin, base, td.form.value);
          row := row + [url];
        } else {
          row := row + [td.text];
        }
      }
      assert cells[..|cells|] == cells;
      values := values + [row];
    }
  }

  /**
   * Plain concatenation. Resolution by section 5.2 of RFC 3986 gives this only
   * for a relative path without `.` or `..` segments, not starting with `/`
   * and without a scheme, against a base ending in `/`.
   */
  function Concat(base: string, relative: string): string
  {
    base + relative
  }

  /**
   * Where resolving is concatenation, a form cell's value is the base
   * followed by a URL that reads back as the form's action and its hidden
   * (name, value) pairs in document order.
   */
  lemma FormCellRoundTrip(base: string, cell: Cell)
    requires cell.form.Some?
    requires '?' !in cell.form.value.action
    requires |HiddenValues(cell.form.value.inputs)| >= 1 && PlainParams(HiddenValues(cell.form.value.inputs))
    ensures |base| <= |Entry(Concat, base, cell)| && Entry(Concat, base, cell)[..|base|] == base
    ensures ParseUrl(Entry(Concat, base, cell)[|base|..]) == Target(cell.form.value)
  {
    var t := Target(cell.form.value);
    var v := base + FormUrl(t);
    assert v[|base|..] == FormUrl(t);
    UrlRoundTrip(t);
  }

}
