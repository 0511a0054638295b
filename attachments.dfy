/**
 * `RubinScraper.scrape_attachments_page`: the attachments page of an agenda
 * item either says that an attachment is missing, and then yields one
 * `'404'` record, or lists the attachments as forms, one `'OK'` record each.
 */
module Attachments {
  import opened Text
  import opened Forms

  /** The records the generator yields, tagged `'404'` and `'OK'`. */
  datatype Attachment =
    | Missing(agendaItemId: string, pageUrl: string)
    | Found(sid: string, agendaItemId: string, title: string, fileUrl: string)

  /** The sentence the portal shows instead of an attachment it cannot deliver. */
  const Unavailable := "Auf die Anlage konnte nicht zugegriffen werden oder Sie existiert nicht mehr."

  /** The `'OK'` record of one form: its text as title and `base_url + toURL()` as file URL. */
  function FoundRecord(base: string, sid: string, itemId: string, form: FormElement): Attachment
  {
    Found(sid, itemId, form.text, base + FormUrl(Form(form.action, HiddenValues(form.inputs))))
  }

  /**
   * The generator of `scrape_attachments_page` for a page with text `text`
   * and forms `forms`, in document order, run to its end.
   */
  method ScrapeAttachmentsPage(base: string, sid: string, itemId: string, pageUrl: string,
                               text: string, forms: seq<FormElement>)
    returns (records: seq<Attachment>)
    ensures records == Records(base, sid, itemId, pageUrl, text, forms)
    ensures Contains(text, Unavailable) ==> records == [Missing(itemId, pageUrl)]
    ensures !Contains(text, Unavailable) ==>
      |records| == |forms| && forall k :: 0 <= k < |forms| ==> records[k] == FoundRecord(base, sid, itemId, forms[k])
  {
    if Contains(text, Unavailable) {
      return [Missing(itemId, pageUrl)];
    }
    records := [];
    for k := 0 to |forms|
      invariant |records| == k
      invariant forall j :: 0 <= j < k ==> records[j] == FoundRecord(base, sid, itemId, forms[j])
    {
      var f := forms[k];
      var title := f.text;
      var form := HiddenForm(f);
      var url := form.ToUrl();
      records := records + [Found(sid, itemId, title, base + url)];
    }
  }

  /** The records a page gives, as a function of the page. */
  function Records(base: string, sid: string, itemId: string, pageUrl: string,
                   text: string, forms: seq<FormElement>): seq<Attachment>
  {
    if Contains(text, Unavailable) then [Missing(itemId, pageUrl)]
    else seq(|forms|, k requires 0 <= k < |forms| => FoundRecord(base, sid, itemId, forms[k]))
  }

  /** The two outcomes never mix: either one `'404'` record alone, or only `'OK'` records. */
  lemma OutcomesExclusive(base: string, sid: string, itemId: string, pageUrl: string,
                          text: string, forms: seq<FormElement>)
    ensures var r := Records(base, sid, itemId, pageUrl, text, forms);
      (exists k :: 0 <= k < |r| && r[k].Missing?) <==> r == [Missing(itemId, pageUrl)]
    ensures var r := Records(base, sid, itemId, pageUrl, text, forms);
      r != [Missing(itemId, pageUrl)] ==> forall k :: 0 <= k < |r| ==> r[k].Found? && r[k].sid == sid
  {
    var r := Records(base, sid, itemId, pageUrl, text, forms);
    if r == [Missing(itemId, pageUrl)] {
      assert r[0].Missing?;
    }
  }

  /**
   * An `'OK'` record's file URL is the base followed by a URL that reads
   * back as the form's action and its hidden (name, value) pairs in order,
   * when the action has no `?` and no name or value holds `&` or `=`.
   */
  lemma FileUrlRoundTrip(base: string, sid: string, itemId: string, form: FormElement)
    requires '?' !in form.action
    requires |HiddenValues(form.inputs)| >= 1 && PlainParams(HiddenValues(form.inputs))
    ensures var url := FoundRecord(base, sid, itemId, form).fileUrl;
      |base| <= |url| && url[..|base|] == base
      && ParseUrl(url[|base|..]) == Form(form.action, HiddenValues(form.inputs))
  {
    var f := Form(form.action, HiddenValues(form.inputs));
    assert (base + FormUrl(f))[|base|..] == FormUrl(f);
    UrlRoundTrip(f);
  }
}
