/**
 * The `Form` class of session.py: a form action plus its (name, value)
 * parameters, serialised as a request URL. The portal disguises links as
 * forms whose hidden inputs carry the parameters; following such a link
 * means building `action?name1=value1&name2=value2...` from them.
 */
module Forms {
  import opened Wrappers
  import opened Text

  /** An `<input>` element: its `type`, `name` and `value` attributes. */
  datatype Input = Input(kind: string, name: string, value: string)

  /** A `<form>` element of a page: its `action`, its `<input>` descendants in document order, and its text. */
  datatype FormElement = FormElement(action: string, inputs: seq<Input>, text: string)

  /** `Form(action, values)`: the request a form submits. */
  datatype Form = Form(action: string, values: seq<(string, string)>)
  {
    /** `Form.toURL`: the parameters are formatted one by one and joined with `&`, unescaped. */
    method ToUrl() returns (url: string)
      ensures url == FormUrl(this)
    {
      var parameters: seq<string> := [];
      for i := 0 to |values|
        invariant parameters == Params(values[..i])
      {
        var (key, value) := values[i];
        parameters := parameters + [key + "=" + value];
        assert values[..i + 1] == values[..i] + [values[i]];
      }
      assert values[..|values|] == values;
      url := action + "?" + Join(parameters, '&');
    }
  }

  function Param(p: (string, string)): string
  {
    p.0 + "=" + p.1
  }

  function Params(ps: seq<(string, string)>): (r: seq<string>)
    ensures |r| == |ps|
    ensures forall k :: 0 <= k < |ps| ==> r[k] == Param(ps[k])
  {
    if ps == [] then [] else Params(ps[..|ps| - 1]) + [Param(ps[|ps| - 1])]
  }

  /** The query part: `&`.join of the `key=value` pairs, in list order. */
  function Query(ps: seq<(string, string)>): string
  {
    Join(Params(ps), '&')
  }

  /** The URL a form submits to. */
  function FormUrl(f: Form): string
  {
    f.action + "?" + Query(f.values)
  }

  /** A parameter split at its first `=`; a parameter without one is a name with an empty value. */
  function SplitParam(p: string): (string, string)
  {
    match IndexOf(p, '=')
    case None => (p, "")
    case Some(i) => (p[..i], p[i + 1..])
  }

  function SplitParams(ps: seq<string>): (r: seq<(string, string)>)
    ensures |r| == |ps|
    ensures forall k :: 0 <= k < |ps| ==> r[k] == SplitParam(ps[k])
  {
    if ps == [] then [] else SplitParams(ps[..|ps| - 1]) + [SplitParam(ps[|ps| - 1])]
  }

  /** Reads a URL back into its action and parameters: split at the first `?`, then on `&`, then at `=`. */
  function ParseUrl(url: string): Form
  {
    match IndexOf(url, '?')
    case None => Form(url, [])
    case Some(i) => Form(url[..i], SplitParams(Split(url[i + 1..], '&')))
  }

  /** No name or value holds a character that the serialisation uses as a separator. */
  predicate PlainParams(ps: seq<(string, string)>)
  {
    forall k :: 0 <= k < |ps| ==>
      '&' !in ps[k].0 && '=' !in ps[k].0 && '&' !in ps[k].1 && '=' !in ps[k].1
  }

  /**
   * Round trip: a form with at least one parameter, an action without `?` and
   * no `&` or `=` inside names and values is recovered from its URL.
   */
  lemma UrlRoundTrip(f: Form)
    requires '?' !in f.action
    requires |f.values| >= 1 && PlainParams(f.values)
    ensures ParseUrl(FormUrl(f)) == f
  {
    var q := Query(f.values);
    var url := FormUrl(f);
    IndexOfAfter(f.action, '?', q);
    assert url[..|f.action|] == f.action;
    assert url[|f.action| + 1..] == q;
    ParamsRoundTrip(f.values);
  }

  lemma ParamsRoundTrip(ps: seq<(string, string)>)
    requires |ps| >= 1 && PlainParams(ps)
    ensures SplitParams(Split(Query(ps), '&')) == ps
  {
    var pieces := Params(ps);
    forall k | 0 <= k < |pieces| ensures '&' !in pieces[k] && SplitParam(pieces[k]) == ps[k] {
      ParamRoundTrip(ps[k].0, ps[k].1);
    }
    SplitJoin(pieces, '&');
  }

  lemma ParamRoundTrip(n: string, v: string)
    requires '=' !in n && '&' !in n && '&' !in v
    ensures '&' !in Param((n, v))
    ensures SplitParam(Param((n, v))) == (n, v)
  {
    var s := n + "=" + v;
    assert s == n + ['='] + v;
    IndexOfAfter(n, '=', v);
    assert s[..|n|] == n;
    assert s[|n| + 1..] == v;
  }

  /** A form `x.php` with `a=1` and `b=2`, and one without parameters. */
  lemma FormUrlExample()
    ensures FormUrl(Form("x.php", [("a", "1"), ("b", "2")])) == "x.php?a=1&b=2"
    ensures FormUrl(Form("x.php", [])) == "x.php?"
  {
    var ps := [("a", "1"), ("b", "2")];
    assert Param(ps[0]) == "a=1" && Param(ps[1]) == "b=2";
    assert Params(ps) == ["a=1", "b=2"];
    assert Join(["a=1", "b=2"], '&') == "a=1&b=2";
  }

  predicate IsHidden(i: Input)
  {
    i.kind == "hidden"
  }

  /**
   * `find_all('input', {'type': 'hidden'})` read as (name, value) pairs: the
   * pairs of the hidden inputs, in document order, and nothing else.
   */
  function HiddenValues(inputs: seq<Input>): (r: seq<(string, string)>)
    ensures |r| <= |inputs|
    ensures forall p :: p in r <==> exists k :: 0 <= k < |inputs| && IsHidden(inputs[k]) && p == (inputs[k].name, inputs[k].value)
  {
    if inputs == [] then []
    else
      var init := inputs[..|inputs| - 1];
      var last := inputs[|inputs| - 1];
      var r := HiddenValues(init);
      assert forall k :: 0 <= k < |init| ==> inputs[k] == init[k];
      if IsHidden(last) then r + [(last.name, last.value)] else r
  }

  /** The hidden pairs keep document order: those of a prefix come before those of the rest. */
  lemma {:induction false} HiddenValuesAppend(a: seq<Input>, b: seq<Input>)
    ensures HiddenValues(a + b) == HiddenValues(a) + HiddenValues(b)
    decreases |b|
  {
    if b == [] {
      assert a + b == a;
    } else {
      var init := b[..|b| - 1];
      assert (a + b)[..|a + b| - 1] == a + init;
      HiddenValuesAppend(a, init);
    }
  }

  /** The loop that copies a form element's hidden inputs into a `Form`'s value list. */
  method HiddenForm(form: FormElement) returns (f: Form)
    ensures f.action == form.action
    ensures f.values == HiddenValues(form.inputs)
  {
    var values: seq<(string, string)> := [];
    for i := 0 to |form.inputs|
      invariant values == HiddenValues(form.inputs[..i])
    {
      var tag := form.inputs[i];
      assert form.inputs[..i + 1][..i] == form.inputs[..i];
      if IsHidden(tag) {
        values := values + [(tag.name, tag.value)];
      }
    }
    assert form.inputs[..|form.inputs|] == form.inputs;
    f := Form(form.action, values);
  }
}
