/** File dispatch (`dispatcher`): the `--out` option maps each model, `*`
    for all models, to the path its records are written to; a path with a
    `%` is a template over the record's fields plus `_model_underscore`,
    the model name with its dots replaced by underscores. */
module Dispatcher {

  import opened Base
  import opened Text
  import opened Values
  import opened PercentFormat
  import opened SpecSyntax

  /** The path used when neither the model nor `*` has one. */
  const DefaultTemplate := "%(_model_underscore)s" + DefaultSuffix

  const DefaultSuffix := "_records.xml"

  /** One `;` segment: the model it names, else `*`, with its path. */
  function DispatchSegment(seg: string): Result<(string, string)>
  {
    match Segment(seg)
    case Fail(e) => Fail(e)
    case Ok((model, path)) => Ok((if model.Some? then model.value else "*", path))
  }

  /** `parse_dispatch_specs`. */
  function ParseDispatchSpecs(cli: string): Result<map<string, string>>
  {
    Specs(Split(cli, ';'), DispatchSegment)
  }

  /** A segment without a colon is for every model; with one colon it is
      for the model before it; a second colon is an error. */
  lemma DispatchSegmentModel(seg: string)
    ensures ':' !in seg ==> DispatchSegment(seg) == Ok(("*", seg))
    ensures ':' in seg ==>
              var (head, tail) := SplitOnce(seg, ':').value;
              && (':' !in tail ==> DispatchSegment(seg) == Ok((head, tail)))
              && (':' in tail ==> DispatchSegment(seg) == Fail(ValueError("too many values to unpack")))
  {
  }

  /** The empty option dispatches nothing specially. */
  lemma ParseDispatchEmpty(cli: string)
    requires cli == ""
    ensures ParseDispatchSpecs(cli) == Ok(map[])
  {
    SpecsOfEmpty(cli, DispatchSegment);
  }

  /** Parsing fails exactly when a segment has two colons. */
  lemma ParseDispatchFails(cli: string)
    ensures ParseDispatchSpecs(cli).Fail? <==> exists seg :: seg in Split(cli, ';') && Segment(seg).Fail?
    ensures ParseDispatchSpecs(cli).Fail? ==> ParseDispatchSpecs(cli).error == ValueError("too many values to unpack")
  {
    var segs := Split(cli, ';');
    var parse := DispatchSegment;
    assert ParseDispatchSpecs(cli) == Specs(segs, parse);
    SpecsFail(segs, parse);
    if ParseDispatchSpecs(cli).Fail? {
      var i :| 0 <= i < |segs| && segs[i] != "" && parse(segs[i]) == Fail(ParseDispatchSpecs(cli).error);
      assert Segment(segs[i]).Fail? && segs[i] in segs;
    }
    if exists seg :: seg in segs && Segment(seg).Fail? {
      var seg :| seg in segs && Segment(seg).Fail?;
      var i :| 0 <= i < |segs| && segs[i] == seg;
      assert seg != "" && parse(segs[i]).Fail?;
    }
  }

  /** A model has a path exactly when a segment names it. */
  lemma ParseDispatchKeys(cli: string, model: string)
    requires ParseDispatchSpecs(cli).Ok?
    ensures model in ParseDispatchSpecs(cli).value <==> exists j :: About(Split(cli, ';'), DispatchSegment, model, j)
  {
    assert ParseDispatchSpecs(cli) == Specs(Split(cli, ';'), DispatchSegment);
    SpecsKeys(Split(cli, ';'), DispatchSegment, model);
  }

  /** The last segment naming a model decides its path:
      `foo:/foo;foo:/bar` sends `foo` to `/bar`. */
  lemma ParseDispatchLast(cli: string, model: string, i: nat)
    requires ParseDispatchSpecs(cli).Ok?
    requires LastFor(Split(cli, ';'), DispatchSegment, model, i)
    ensures model in ParseDispatchSpecs(cli).value
    ensures ParseDispatchSpecs(cli).value[model] == DispatchSegment(Split(cli, ';')[i]).value.1
  {
    SpecsLast(Split(cli, ';'), DispatchSegment, model);
  }

  /** `model:/foo/bar` sends `model` to `/foo/bar`; a bare `/foo/bar`
      sends every model there. */
  lemma ParseDispatchSingle(model: string, path: string)
    requires ':' !in model && ';' !in model && ':' !in path && ';' !in path && path != ""
    ensures ParseDispatchSpecs(model + ":" + path) == Ok(map[model := path])
    ensures ParseDispatchSpecs(path) == Ok(map["*" := path])
  {
    SegmentNamed(model, path);
    SpecsSingle(model + ":" + path, DispatchSegment);
    SpecsSingle(path, DispatchSegment);
  }

  /** `model:/foo/bar;/foo/wiz` sends `model` to `/foo/bar` and every
      other model to `/foo/wiz`. */
  lemma ParseDispatchPair(model: string, path: string, other: string)
    requires ':' !in model && ';' !in model && ':' !in path && ';' !in path
    requires ':' !in other && ';' !in other && other != ""
    ensures ParseDispatchSpecs((model + ":" + path) + ";" + other) == Ok(map[model := path]["*" := other])
  {
    SegmentNamed(model, path);
    SpecsPair(model + ":" + path, other, DispatchSegment);
  }

  /** The record's `_model` field, `None` when it has none. */
  function ModelOf(record: map<string, Value>): Value
  {
    if "_model" in record then record["_model"] else VNone
  }

  /** `opts.get(model, opts.get('*', default))`: only a string model can
      be a key of the options. */
  function Template(opts: map<string, string>, record: map<string, Value>): (t: string)
    ensures ModelOf(record).VStr? && ModelOf(record).s in opts ==> t == opts[ModelOf(record).s]
    ensures !(ModelOf(record).VStr? && ModelOf(record).s in opts) && "*" in opts ==> t == opts["*"]
    ensures !(ModelOf(record).VStr? && ModelOf(record).s in opts) && "*" !in opts ==> t == DefaultTemplate
  {
    var model := ModelOf(record);
    if model.VStr? && model.s in opts then opts[model.s]
    else if "*" in opts then opts["*"]
    else DefaultTemplate
  }

  /** The template's fields: the record's own, with `_model_underscore`
      set from the model. */
  function TemplateFields(record: map<string, Value>, model: string): map<string, Value>
  {
    record["_model_underscore" := VStr(ReplaceChar(model, '.', '_'))]
  }

  /** `BasicFileDispatcher.__call__`: the path of a record. A template with
      `%` on a record whose model is missing or not a string fails on
      `model.replace`. */
  function Dispatch(opts: map<string, string>, record: map<string, Value>): (r: Result<string>)
    ensures '%' !in Template(opts, record) ==> r == Ok(Template(opts, record))
    ensures '%' in Template(opts, record) && !ModelOf(record).VStr? ==> r.Fail? && r.error.AttributeError?
  {
    var fp := Template(opts, record);
    if '%' !in fp then Ok(fp)
    else
      match ModelOf(record)
      case VStr(model) => Format(fp, TemplateFields(record, model))
      case _ => Fail(AttributeError("object has no attribute 'replace'"))
  }

  /** A template that is `%(_model_underscore)s` followed by plain text
      renders as the model with dots replaced, followed by that text,
      whatever the record's own `_model_underscore` field holds. */
  lemma DispatchUnderscore(opts: map<string, string>, record: map<string, Value>, m: string, suffix: string)
    requires ModelOf(record) == VStr(m)
    requires Template(opts, record) == "%(_model_underscore)s" + suffix && '%' !in suffix
    ensures Dispatch(opts, record) == Ok(ReplaceChar(m, '.', '_') + suffix)
  {
    var t := Template(opts, record);
    assert t[0] == '%';
    RenderUnderscore(t, TemplateFields(record, m), m, suffix);
  }

  lemma RenderUnderscore(t: string, d: map<string, Value>, m: string, suffix: string)
    requires t == "%(_model_underscore)s" + suffix && '%' !in suffix
    requires "_model_underscore" in d && d["_model_underscore"] == VStr(ReplaceChar(m, '.', '_'))
    ensures Format(t, d) == Ok(ReplaceChar(m, '.', '_') + suffix)
  {
    assert t == "%(" + "_model_underscore" + ")s" + suffix;
    FormatPlaceholder("_model_underscore", suffix, d);
    FormatVerbatim(suffix, d);
  }

  /** With no path for the model nor for `*`, a record of `res.partner`
      goes to `res_partner_records.xml`. */
  lemma DispatchDefault(opts: map<string, string>, record: map<string, Value>, m: string)
    requires ModelOf(record) == VStr(m) && m !in opts && "*" !in opts
    ensures Dispatch(opts, record) == Ok(ReplaceChar(m, '.', '_') + DefaultSuffix)
  {
    assert '%' !in DefaultSuffix;
    DispatchUnderscore(opts, record, m, DefaultSuffix);
  }

  /** The model's own path beats the `*` path, and a path without `%` is
      used as is: parsing `m:p;q` and dispatching a record of `m` gives `p`,
      one of any other model gives `q`. */
  lemma ParsedDispatch(m: string, p: string, q: string, record: map<string, Value>)
    requires ':' !in m && ';' !in m && m != "*"
    requires ':' !in p && ';' !in p && '%' !in p
    requires ':' !in q && ';' !in q && '%' !in q && q != ""
    requires ParseDispatchSpecs((m + ":" + p) + ";" + q).Ok?
    ensures ModelOf(record) == VStr(m) ==> Dispatch(ParseDispatchSpecs((m + ":" + p) + ";" + q).value, record) == Ok(p)
    ensures ModelOf(record) != VStr(m) ==> Dispatch(ParseDispatchSpecs((m + ":" + p) + ";" + q).value, record) == Ok(q)
  {
    ParseDispatchPair(m, p, q);
  }
}
