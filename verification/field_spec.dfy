/** Field selection (`field_spec`): the `--fields` option maps each model,
    `*` for all models, to the fields it selects (`f`, `+f`) or casts out
    (`-f`), `*` for all fields; a field is selected unless the most
    specific rule says otherwise. */
module FieldSpec {

  import opened Base
  import opened Text
  import opened SpecSyntax

  /** Model (given, or the current model, possibly none) to field rules. */
  type Spec = map<Option<string>, map<string, bool>>

  /** One non-empty entry: the field without its `+` or `-` prefix, and
      whether it is selected (everything but a `-` prefix selects). */
  function Label(entry: string): (r: (string, bool))
    requires entry != ""
    ensures r.1 <==> entry[0] != '-'
    ensures (entry[0] == '+' || entry[0] == '-') ==> entry == [entry[0]] + r.0
    ensures (entry[0] != '+' && entry[0] != '-') ==> r.0 == entry
  {
    (if entry[0] == '+' || entry[0] == '-' then entry[1..] else entry, entry[0] != '-')
  }

  /** `dict(…)` over the non-empty labels in order: a later entry for a
      field overwrites an earlier one. */
  function LabelMap(labels: seq<string>): map<string, bool>
    decreases |labels|
  {
    if |labels| == 0 then map[]
    else
      var m := LabelMap(labels[..|labels| - 1]);
      var entry := labels[|labels| - 1];
      if entry == "" then m else m[Label(entry).0 := Label(entry).1]
  }

  /** The rules of a comma-separated field list. */
  function Fields(fieldsSpec: string): map<string, bool>
  {
    LabelMap(Split(fieldsSpec, ','))
  }

  /** Label `i` is the last non-empty entry naming field `f`. */
  ghost predicate LastLabel(labels: seq<string>, f: string, i: int)
  {
    && 0 <= i < |labels| && labels[i] != "" && Label(labels[i]).0 == f
    && forall j :: i < j < |labels| && labels[j] != "" ==> Label(labels[j]).0 != f
  }

  /** A field has a rule exactly when a non-empty entry names it, and the
      last such entry decides it: `f1,-f1,+f1` selects `f1`. */
  lemma LabelMapLast(labels: seq<string>, f: string)
    ensures f in LabelMap(labels) <==> exists i :: 0 <= i < |labels| && labels[i] != "" && Label(labels[i]).0 == f
    ensures forall i :: LastLabel(labels, f, i) ==> f in LabelMap(labels) && LabelMap(labels)[f] == Label(labels[i]).1
  {
    LabelMapKeys(labels, f);
    LabelMapValue(labels, f);
  }

  lemma {:induction false} LabelMapKeys(labels: seq<string>, f: string)
    ensures f in LabelMap(labels) <==> exists i :: 0 <= i < |labels| && labels[i] != "" && Label(labels[i]).0 == f
    decreases |labels|
  {
    if |labels| > 0 {
      var init := labels[..|labels| - 1];
      var entry := labels[|labels| - 1];
      LabelMapKeys(init, f);
      assert forall i :: 0 <= i < |init| ==> init[i] == labels[i];
      if entry != "" && Label(entry).0 == f {
        assert labels[|labels| - 1] != "" && Label(labels[|labels| - 1]).0 == f;
      }
    }
  }

  lemma {:induction false} LabelMapValue(labels: seq<string>, f: string)
    ensures forall i :: LastLabel(labels, f, i) ==> f in LabelMap(labels) && LabelMap(labels)[f] == Label(labels[i]).1
    decreases |labels|
  {
    if |labels| > 0 {
      var init := labels[..|labels| - 1];
      var entry := labels[|labels| - 1];
      LabelMapValue(init, f);
      assert forall i :: 0 <= i < |init| ==> init[i] == labels[i];
      if entry == "" || Label(entry).0 != f {
        forall i | LastLabel(labels, f, i) ensures LastLabel(init, f, i) {}
      } else {
        forall i | LastLabel(labels, f, i) ensures i == |labels| - 1 {}
      }
    }
  }

  /** One `;` segment: the model it names, else the current model, with
      its field rules. */
  function FieldSegment(current: Option<string>, seg: string): (r: Result<(Option<string>, map<string, bool>)>)
  {
    match Segment(seg)
    case Fail(e) => Fail(e)
    case Ok((model, fieldsSpec)) => Ok((if model.Some? then model else current, Fields(fieldsSpec)))
  }

  /** `parse_field_specs`. */
  function ParseFieldSpecs(cli: string, current: Option<string>): Result<Spec>
  {
    Specs(Split(cli, ';'), (seg: string) => FieldSegment(current, seg))
  }

  /** A segment is attributed to the model before its colon, or to the
      current model when it has none; a second colon is an error. */
  lemma FieldSegmentModel(current: Option<string>, seg: string)
    ensures ':' !in seg ==> FieldSegment(current, seg) == Ok((current, Fields(seg)))
    ensures ':' in seg ==>
              var (head, tail) := SplitOnce(seg, ':').value;
              && (':' !in tail ==> FieldSegment(current, seg) == Ok((Some(head), Fields(tail))))
              && (':' in tail ==> FieldSegment(current, seg) == Fail(ValueError("too many values to unpack")))
  {
  }

  /** The empty option selects nothing specially. */
  lemma ParseEmpty(cli: string, current: Option<string>)
    requires cli == ""
    ensures ParseFieldSpecs(cli, current) == Ok(map[])
  {
    SpecsOfEmpty(cli, (seg: string) => FieldSegment(current, seg));
  }

  /** Parsing fails exactly when a segment has two colons. */
  lemma ParseFails(cli: string, current: Option<string>)
    ensures ParseFieldSpecs(cli, current).Fail? <==>
              exists seg :: seg in Split(cli, ';') && Segment(seg).Fail?
    ensures ParseFieldSpecs(cli, current).Fail? ==>
              ParseFieldSpecs(cli, current).error == ValueError("too many values to unpack")
  {
    var segs := Split(cli, ';');
    var parse := (seg: string) => FieldSegment(current, seg);
    assert ParseFieldSpecs(cli, current) == Specs(segs, parse);
    SpecsFail(segs, parse);
    if ParseFieldSpecs(cli, current).Fail? {
      var i :| 0 <= i < |segs| && segs[i] != "" && parse(segs[i]) == Fail(ParseFieldSpecs(cli, current).error);
      assert Segment(segs[i]).Fail? && segs[i] in segs;
    }
    if exists seg :: seg in segs && Segment(seg).Fail? {
      var seg :| seg in segs && Segment(seg).Fail?;
      var i :| 0 <= i < |segs| && segs[i] == seg;
      assert seg != "" && parse(segs[i]).Fail?;
    }
  }

  /** A later segment for a model replaces the rules of an earlier one
      whole: `foo:-*;foo:f1` keeps only `f1`. */
  lemma ParseLastSegment(cli: string, current: Option<string>, model: Option<string>, i: nat)
    requires ParseFieldSpecs(cli, current).Ok?
    requires LastFor(Split(cli, ';'), (seg: string) => FieldSegment(current, seg), model, i)
    ensures model in ParseFieldSpecs(cli, current).value
    ensures ParseFieldSpecs(cli, current).value[model] == FieldSegment(current, Split(cli, ';')[i]).value.1
  {
    SpecsLast(Split(cli, ';'), (seg: string) => FieldSegment(current, seg), model);
  }

  /** A plain field name selects that field. */
  lemma FieldsPlain(field: string)
    requires field != "" && ',' !in field && field[0] != '+' && field[0] != '-'
    ensures Fields(field) == map[field := true]
  {
    SplitNoSep(field, ',');
    assert [field][..0] == [];
    assert LabelMap([field]) == LabelMap([])[field := true];
  }

  /** `-` and a field name casts that field out. */
  lemma FieldsMinus(entry: string, field: string)
    requires entry == "-" + field && ',' !in field
    ensures Fields(entry) == map[field := false]
  {
    assert ',' !in entry;
    SplitNoSep(entry, ',');
    assert [entry][..0] == [];
    assert entry[0] == '-' && entry[1..] == field;
    assert LabelMap([entry]) == LabelMap([])[field := false];
  }

  /** A segment naming a model with a single colon. */
  lemma FieldSegmentNamed(current: Option<string>, model: string, fieldsSpec: string)
    requires ':' !in model && ':' !in fieldsSpec
    ensures FieldSegment(current, model + ":" + fieldsSpec) == Ok((Some(model), Fields(fieldsSpec)))
  {
    SegmentNamed(model, fieldsSpec);
  }

  /** `spec.get(k, {})`. */
  function Layer(spec: Spec, k: string): map<string, bool>
  {
    if Some(k) in spec then spec[Some(k)] else map[]
  }

  /** `is_field_selected`: the model's rules over the `*` model's rules;
      the field's own rule, else the `*` field rule, else selected. */
  function IsFieldSelected(model: string, field: string, spec: Spec): (r: bool)
    ensures field in Layer(spec, model) ==> r == Layer(spec, model)[field]
    ensures field !in Layer(spec, model) && field in Layer(spec, "*") ==> r == Layer(spec, "*")[field]
    ensures field !in Layer(spec, model) && field !in Layer(spec, "*") ==>
              r == if "*" in Layer(spec, model) then Layer(spec, model)["*"]
                   else if "*" in Layer(spec, "*") then Layer(spec, "*")["*"]
                   else true
  {
    var fieldSpec := Layer(spec, "*") + Layer(spec, model);
    var default := if "*" in fieldSpec then fieldSpec["*"] else true;
    if field in fieldSpec then fieldSpec[field] else default
  }

  /** Rules for models other than `model` and `*` never matter. */
  lemma OtherModelsIrrelevant(model: string, field: string, spec: Spec, spec': Spec)
    requires Layer(spec, model) == Layer(spec', model) && Layer(spec, "*") == Layer(spec', "*")
    ensures IsFieldSelected(model, field, spec) == IsFieldSelected(model, field, spec')
  {
  }

  /** With no rule at all every field is selected; a `-*` for the model
      casts every field out; a rule for the model beats any `*` rule. */
  lemma SelectionExamples(model: string, field: string)
    requires model != "*" && field != "*"
    ensures IsFieldSelected(model, field, map[])
    ensures !IsFieldSelected(model, field, map[Some(model) := map["*" := false]])
    ensures IsFieldSelected(model, field, map[Some("*") := map[field := false], Some(model) := map[field := true]])
    ensures IsFieldSelected(model, field, map[Some("*") := map["*" := false], Some(model) := map[field := true]])
  {
  }

  /** A single segment naming a model. */
  lemma ParseNamed(model: string, fieldsSpec: string, current: Option<string>)
    requires ':' !in model && ';' !in model && ':' !in fieldsSpec && ';' !in fieldsSpec
    ensures ParseFieldSpecs(model + ":" + fieldsSpec, current) == Ok(map[Some(model) := Fields(fieldsSpec)])
  {
    var parse := (seg: string) => FieldSegment(current, seg);
    var seg := model + ":" + fieldsSpec;
    FieldSegmentNamed(current, model, fieldsSpec);
    assert parse(seg) == Ok((Some(model), Fields(fieldsSpec)));
    SpecsSingle(seg, parse);
  }

  /** Two segments naming models, the second one last. */
  lemma ParseNamedPair(m1: string, f1: string, m2: string, f2: string, current: Option<string>)
    requires ':' !in m1 && ';' !in m1 && ':' !in f1 && ';' !in f1
    requires ':' !in m2 && ';' !in m2 && ':' !in f2 && ';' !in f2
    ensures ParseFieldSpecs((m1 + ":" + f1) + ";" + (m2 + ":" + f2), current) ==
              Ok(map[Some(m1) := Fields(f1)][Some(m2) := Fields(f2)])
  {
    var parse := (seg: string) => FieldSegment(current, seg);
    FieldSegmentNamed(current, m1, f1);
    FieldSegmentNamed(current, m2, f2);
    SpecsPair(m1 + ":" + f1, m2 + ":" + f2, parse);
  }

  /** `bar:-*` casts every field of `bar` out. */
  lemma ParsedMinusAll(model: string, field: string, current: Option<string>)
    requires model != "*" && field != "*" && ':' !in model && ';' !in model
    ensures ParseFieldSpecs(model + ":" + "-*", current) == Ok(map[Some(model) := map["*" := false]])
    ensures !IsFieldSelected(model, field, ParseFieldSpecs(model + ":" + "-*", current).value)
  {
    ParseNamed(model, "-*", current);
    FieldsMinus("-*", "*");
  }

  /** `*:-f1;bar:f1` and `*:-*;bar:f1` both select `f1` of `bar`: a rule
      for the model beats a rule for every model. */
  lemma ParsedOwnRuleWins(model: string, field: string, star: string, current: Option<string>)
    requires model != "*" && field != "*" && field != "" && field[0] != '+' && field[0] != '-'
    requires star == "-" + field || star == "-*"
    requires ':' !in model && ';' !in model && ':' !in field && ';' !in field && ',' !in field
    ensures ParseFieldSpecs(("*" + ":" + star) + ";" + (model + ":" + field), current).Ok?
    ensures IsFieldSelected(model, field, ParseFieldSpecs(("*" + ":" + star) + ";" + (model + ":" + field), current).value)
  {
    ParseNamedPair("*", star, model, field, current);
    FieldsPlain(field);
  }
}
