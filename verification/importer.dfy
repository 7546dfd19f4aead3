/** The merge step of record import. Each rendered record is matched, by the
    id the registry gives its remote object, against the tracked ids: an
    identical record is left alone, a different one replaces the tracked
    record in place, and an untracked one is appended to the data file its
    label names. Rendering (`to_xml`) is not modelled: an item carries the
    remote object and the record it renders to. The element trees that the
    source mutates in place are values here, so the merge threads a state. */
module RecordImport {

  import opened Base
  import opened Text
  import opened Values
  import opened PercentFormat
  import opened OoopUtils
  import opened Common
  import opened XmlIdMgr
  import opened Corpus
  import Loader

  // ---------------------------------------------------------------------
  // Tag names

  /** `remove_tag`: a leading `{tag}` is cut and the rest stripped; a name
      without that prefix is returned as it is. */
  function RemoveTag(name: string, tag: string): (r: string)
    ensures !StartsWith(name, "{" + tag + "}") ==> r == name
    ensures StartsWith(name, "{" + tag + "}") ==>
              && |r| + |tag| + 2 <= |name|
              && (|r| > 0 ==> !IsSpace(r[0]) && !IsSpace(r[|r| - 1]))
  {
    var prefix := "{" + tag + "}";
    if StartsWith(name, prefix) then Strip(name[|prefix|..]) else name
  }

  /** What follows `{tag}` is the stripped rest. */
  lemma RemoveTagPrefixed(tag: string, rest: string)
    ensures RemoveTag("{" + tag + "}" + rest, tag) == Strip(rest)
  {
    var name := "{" + tag + "}" + rest;
    assert name[..|tag| + 2] == "{" + tag + "}";
    assert name[|tag| + 2..] == rest;
  }

  // ---------------------------------------------------------------------
  // File name of a new record

  /** The model as labels see it: a custom model's `x_` prefix removed. */
  function ModelLabel(model: string): (r: string)
    ensures StartsWith(model, "x_") ==> model == "x_" + r
    ensures !StartsWith(model, "x_") ==> r == model
  {
    if StartsWith(model, "x_") then model[2..] else model
  }

  /** The mapping labels are rendered against: the object's simple fields,
      its `id`, and `_model`. */
  function LabelFields(obj: Obj): (r: map<string, Value>)
    ensures r.Keys == Obj2Dct(obj).Keys + {"_model"}
    ensures r["_model"] == VStr(ModelLabel(obj.model))
    ensures forall k :: k in r && k != "_model" ==> r[k] == Obj2Dct(obj)[k]
  {
    Obj2Dct(obj)["_model" := VStr(ModelLabel(obj.model))]
  }

  /** `_get_file_name_for_record`: the label rendered against the object,
      dots turned into underscores, `.xml` appended. Rendering errors
      (a field the label names but the object lacks) escape. */
  function FileNameFor(obj: Obj, labelFmt: string): (r: Result<string>)
    ensures r.Fail? <==> Format(labelFmt, LabelFields(obj)).Fail?
    ensures r.Fail? ==> r.error == Format(labelFmt, LabelFields(obj)).error
    ensures r.Ok? ==>
              && EndsWith(r.value, ".xml")
              && r.value[..|r.value| - 4] == FileNormalizeModelName(Format(labelFmt, LabelFields(obj)).value)
  {
    match Format(labelFmt, LabelFields(obj))
    case Fail(e) => Fail(e)
    case Ok(f) =>
      var name := FileNormalizeModelName(f) + ".xml";
      assert name[..|name| - 4] == FileNormalizeModelName(f);
      Ok(name)
  }

  const DefaultLabel := "%(_model)s_record"

  /** A label that is `%(_model)s` followed by plain text puts a record of
      `x_foo.bar` in `foo_bar` followed by that text and `.xml`: the model,
      without `x_`, with dots replaced. */
  lemma ModelLabelFileName(obj: Obj, labelFmt: string, suffix: string)
    requires labelFmt == "%(_model)s" + suffix
    requires '%' !in suffix && '.' !in suffix
    ensures FileNameFor(obj, labelFmt) == Ok(FileNormalizeModelName(ModelLabel(obj.model)) + suffix + ".xml")
  {
    var d := LabelFields(obj);
    assert labelFmt == "%(" + "_model" + ")s" + suffix;
    FormatPlaceholder("_model", suffix, d);
    FormatVerbatim(suffix, d);
    var f := ModelLabel(obj.model) + suffix;
    assert Format(labelFmt, d) == Ok(f);
    FileNameRendered(obj, labelFmt, f);
    NormalizeDotFreeSuffix(ModelLabel(obj.model), suffix);
  }

  /** The default label: a record of `x_foo.bar` lands in `foo_bar_record.xml`. */
  lemma DefaultLabelFileName(obj: Obj, labelFmt: string)
    requires labelFmt == DefaultLabel
    ensures FileNameFor(obj, labelFmt) == Ok(FileNormalizeModelName(ModelLabel(obj.model)) + "_record" + ".xml")
  {
    ModelLabelFileName(obj, labelFmt, "_record");
  }

  /** A suffix without dots survives normalisation unchanged. */
  lemma NormalizeDotFreeSuffix(m: string, suffix: string)
    requires '.' !in suffix
    ensures FileNormalizeModelName(m + suffix) == FileNormalizeModelName(m) + suffix
  {
    ReplaceCharAppend(m, suffix, '.', '_');
    ReplaceCharAbsent(suffix, '.', '_');
  }

  lemma FileNameRendered(obj: Obj, labelFmt: string, f: string)
    requires Format(labelFmt, LabelFields(obj)) == Ok(f)
    ensures FileNameFor(obj, labelFmt) == Ok(FileNormalizeModelName(f) + ".xml")
  {
  }

  lemma ReplaceCharAbsent(s: string, a: char, b: char)
    requires a !in s
    ensures ReplaceChar(s, a, b) == s
  {
    assert forall i :: 0 <= i < |s| ==> s[i] != a;
  }

  lemma ReplaceCharAppend(a: string, b: string, x: char, y: char)
    ensures ReplaceChar(a + b, x, y) == ReplaceChar(a, x, y) + ReplaceChar(b, x, y)
  {
    var l := ReplaceChar(a + b, x, y);
    var rr := ReplaceChar(a, x, y) + ReplaceChar(b, x, y);
    assert |l| == |rr|;
    forall i | 0 <= i < |l|
      ensures l[i] == rr[i]
    {
      if i < |a| {
        assert (a + b)[i] == a[i];
      } else {
        assert (a + b)[i] == b[i - |a|];
      }
    }
  }

  // ---------------------------------------------------------------------
  // The merge state

  /** A record to import: the remote object and the record it renders to. */
  datatype Item = Item(obj: Obj, xml: Record)

  datatype Outcome = Noop | Modified | Added

  /** The registry the ids come from and the label naming new files. */
  datatype Session = Session(reg: Registry, store: Store, labelFmt: string)

  /** The merge state: tracked ids and tracked files (updated in place),
      the contents of touched files that were not tracked, the names of
      the files to write, and the outcome of each item so far. */
  datatype Merge = Merge(
    res: map<XmlId, Tracked>,
    files: map<string, TrackedFile>,
    started: map<string, Doc>,
    written: set<string>,
    outcomes: seq<Outcome>)

  /** Every tracked id designates its record inside its tracked file, and
      no two ids designate the same element. */
  ghost predicate Coherent(res: map<XmlId, Tracked>, files: map<string, TrackedFile>)
  {
    && (forall k :: k in res ==>
          && res[k].filename in files
          && ValidLoc(files[res[k].filename].content, res[k].loc)
          && At(files[res[k].filename].content, res[k].loc) == res[k].record)
    && (forall k1, k2 :: k1 in res && k2 in res && Pos(res[k1]) == Pos(res[k2]) ==> k1 == k2)
  }

  /** Where a tracked record sits: its file and its position there. */
  function Pos(t: Tracked): (string, Loc)
  {
    (t.filename, t.loc)
  }

  /** The merge state is coherent, and new contents exist only for touched
      files that are not tracked. */
  ghost predicate Wf(m: Merge)
  {
    && Coherent(m.res, m.files)
    && (forall f :: f in m.started ==> f in m.written && f !in m.files)
    && (forall f :: f in m.written && f !in m.files ==> f in m.started)
  }

  /** The loader's result is a coherent starting point: every tracked id
      sits at its position in its file, and one position holds one id. */
  lemma ConsistentIsCoherent(env: Loader.Env, st: Loader.State)
    requires Loader.Consistent(env, st)
    ensures Coherent(st.res, st.files)
  {
    forall k1, k2 | k1 in st.res && k2 in st.res && Pos(st.res[k1]) == Pos(st.res[k2])
      ensures k1 == k2
    {
      assert Loader.Placed(env, k1, st.res[k1]) && Loader.Placed(env, k2, st.res[k2]);
    }
    forall k | k in st.res
      ensures At(st.files[st.res[k].filename].content, st.res[k].loc) == st.res[k].record
    {
      assert Loader.Placed(env, k, st.res[k]);
    }
  }

  /** The content a new record for `f` goes into: the tracked file, the
      file already started in this import, or an empty data file. */
  function TargetDoc(m: Merge, f: string): Doc
  {
    if f in m.files then m.files[f].content
    else if f in m.started then m.started[f]
    else EmptyData
  }

  /** The step keeps ids, file names, positions and files, and only grows
      the write set and the outcome list. */
  ghost predicate Keeps(m: Merge, n: Merge)
  {
    && n.res.Keys == m.res.Keys
    && (forall k :: k in m.res ==> n.res[k].filename == m.res[k].filename && n.res[k].loc == m.res[k].loc)
    && n.files.Keys == m.files.Keys
    && m.written <= n.written
    && |m.outcomes| <= |n.outcomes| && n.outcomes[..|m.outcomes|] == m.outcomes
  }

  /** The tracked id of an item, as the registry gives it. */
  function ItemKey(s: Session, it: Item): (r: Option<XmlId>)
    ensures r.Some? ==> r.value.mod.Some?
  {
    match Lookup(s.reg, s.store, it.obj.model, it.obj.ref)
    case None => None
    case Some(p) => Some(XmlId(Some(p.mod), p.name))
  }

  /** The tracked record `k` replaced by `xml` in place, and its file
      marked for writing. */
  function Modify(m: Merge, k: XmlId, xml: Record): (n: Merge)
    requires Wf(m) && k in m.res
    ensures Wf(n) && Keeps(m, n) && |n.outcomes| == |m.outcomes| + 1
  {
    var t := m.res[k];
    var tf := m.files[t.filename];
    var n := m.(res := m.res[k := t.(record := xml, replaced := t.replaced + 1)],
                files := m.files[t.filename := tf.(content := ReplaceAt(tf.content, t.loc, xml))],
                written := m.written + {t.filename},
                outcomes := m.outcomes + [Modified]);
    assert Replaced(m, k, xml, n);
    ModifiedWf(m, k, xml, n);
    n
  }

  /** File `f` given the content `d`, and marked for writing. */
  function AddTo(m: Merge, f: string, d: Doc): (n: Merge)
    requires Wf(m)
    requires forall l :: ValidLoc(TargetDoc(m, f), l) ==> ValidLoc(d, l) && At(d, l) == At(TargetDoc(m, f), l)
    ensures Wf(n) && Keeps(m, n) && |n.outcomes| == |m.outcomes| + 1
  {
    var n := m.(files := if f in m.files then m.files[f := m.files[f].(content := d)] else m.files,
                started := if f in m.files then m.started else m.started[f := d],
                written := m.written + {f},
                outcomes := m.outcomes + [Added]);
    AddedWf(m, f, d, n);
    n
  }

  /** One iteration of the import loop. An object the registry knows no id
      for cannot be shown and fails with a `TypeError`. */
  function Step(s: Session, m: Merge, it: Item): (r: Result<Merge>)
    requires Wf(m)
    ensures r.Ok? ==> Wf(r.value) && Keeps(m, r.value) && |r.value.outcomes| == |m.outcomes| + 1
  {
    match ItemKey(s, it)
    case None => Fail(TypeError("'NoneType' object is not iterable"))
    case Some(k) =>
      if k in m.res then
        if m.res[k].record == it.xml then Ok(m.(outcomes := m.outcomes + [Noop]))
        else Ok(Modify(m, k, it.xml))
      else
        match FileNameFor(it.obj, s.labelFmt)
        case Fail(e) => Fail(e)
        case Ok(f) =>
          match AppendFirst(TargetDoc(m, f), it.xml)
          case Fail(e) => Fail(e)
          case Ok(d) => Ok(AddTo(m, f, d))
  }

  /** `n` is `m` with the record `k` replaced by `xml` in place. */
  ghost predicate Replaced(m: Merge, k: XmlId, xml: Record, n: Merge)
  {
    && k in m.res && m.res[k].filename in m.files
    && var t := m.res[k];
       var tf := m.files[t.filename];
       && ValidLoc(tf.content, t.loc)
       && n == m.(res := m.res[k := t.(record := xml, replaced := t.replaced + 1)],
                  files := m.files[t.filename := tf.(content := ReplaceAt(tf.content, t.loc, xml))],
                  written := m.written + {t.filename},
                  outcomes := m.outcomes + [Modified])
  }

  /** Replacing a record in place keeps the state coherent: the element
      keeps its position and the others are untouched. */
  lemma ModifiedWf(m: Merge, k: XmlId, xml: Record, n: Merge)
    requires Wf(m) && Replaced(m, k, xml, n)
    ensures Wf(n) && Keeps(m, n)
  {
    ReplacedKeeps(m, k, xml, n);
    ReplacedPlaced(m, k, xml, n);
    ReplacedDistinct(m, k, xml, n);
    ReplacedStarted(m, k, xml, n);
  }

  lemma ReplacedKeeps(m: Merge, k: XmlId, xml: Record, n: Merge)
    requires Wf(m) && Replaced(m, k, xml, n)
    ensures Keeps(m, n)
  {
  }

  lemma ReplacedDistinct(m: Merge, k: XmlId, xml: Record, n: Merge)
    requires Wf(m) && Replaced(m, k, xml, n)
    ensures forall k1, k2 :: k1 in n.res && k2 in n.res && Pos(n.res[k1]) == Pos(n.res[k2]) ==> k1 == k2
  {
    assert forall j :: j in n.res ==> Pos(n.res[j]) == Pos(m.res[j]);
  }

  lemma ReplacedStarted(m: Merge, k: XmlId, xml: Record, n: Merge)
    requires Wf(m) && Replaced(m, k, xml, n)
    ensures forall f :: f in n.started ==> f in n.written && f !in n.files
    ensures forall f :: f in n.written && f !in n.files ==> f in n.started
  {
  }

  lemma ReplacedPlaced(m: Merge, k: XmlId, xml: Record, n: Merge)
    requires Wf(m) && Replaced(m, k, xml, n)
    ensures forall j :: j in n.res ==>
              && n.res[j].filename in n.files
              && ValidLoc(n.files[n.res[j].filename].content, n.res[j].loc)
              && At(n.files[n.res[j].filename].content, n.res[j].loc) == n.res[j].record
  {
    var t := m.res[k];
    forall j | j in m.res && j != k && m.res[j].filename == t.filename
      ensures m.res[j].loc != t.loc
    {
      assert Pos(m.res[j]) != Pos(m.res[k]);
    }
  }

  /** Appending keeps the state coherent: every element keeps its position. */
  lemma AddedWf(m: Merge, f: string, d: Doc, n: Merge)
    requires Wf(m)
    requires forall l :: ValidLoc(TargetDoc(m, f), l) ==> ValidLoc(d, l) && At(d, l) == At(TargetDoc(m, f), l)
    requires n == m.(files := if f in m.files then m.files[f := m.files[f].(content := d)] else m.files,
                     started := if f in m.files then m.started else m.started[f := d],
                     written := m.written + {f},
                     outcomes := m.outcomes + [Added])
    ensures Wf(n) && Keeps(m, n)
  {
    forall j | j in n.res
      ensures n.res[j].filename in n.files
      ensures ValidLoc(n.files[n.res[j].filename].content, n.res[j].loc)
      ensures At(n.files[n.res[j].filename].content, n.res[j].loc) == n.res[j].record
    {
      if m.res[j].filename == f {
        assert TargetDoc(m, f) == m.files[f].content;
      }
    }
  }

  // ---------------------------------------------------------------------
  // What one step does

  /** An item whose record equals the tracked one changes nothing and
      touches no file. */
  lemma StepNoop(s: Session, m: Merge, it: Item)
    requires Wf(m)
    requires ItemKey(s, it).Some? && ItemKey(s, it).value in m.res
    requires m.res[ItemKey(s, it).value].record == it.xml
    ensures Step(s, m, it) == Ok(m.(outcomes := m.outcomes + [Noop]))
  {
  }

  /** `n` is `m` after the tracked record `k` was replaced by `xml`: the
      element keeps its position, counts one more replacement, and its
      file is marked for writing; every other element, id and file stays
      as it was. */
  ghost predicate ReplacedBy(m: Merge, k: XmlId, xml: Record, n: Merge)
  {
    && k in m.res && k in n.res
    && var t := m.res[k];
       && t.filename in m.files && t.filename in n.files
       && var before := m.files[t.filename].content;
          var after := n.files[t.filename].content;
          && n.res[k] == t.(record := xml, replaced := t.replaced + 1)
          && (forall j :: j in m.res && j != k ==> j in n.res && n.res[j] == m.res[j])
          && SameShape(before, after) && ValidLoc(after, t.loc) && At(after, t.loc) == xml
          && (forall l :: ValidLoc(before, l) && l != t.loc ==> ValidLoc(after, l) && At(after, l) == At(before, l))
          && (forall g :: g in m.files && g != t.filename ==> g in n.files && n.files[g] == m.files[g])
          && n.files[t.filename].deps == m.files[t.filename].deps
          && n.started == m.started
          && n.written == m.written + {t.filename}
          && n.outcomes == m.outcomes + [Modified]
  }

  /** A tracked item with a different record replaces the tracked one. */
  lemma StepModified(s: Session, m: Merge, it: Item)
    requires Wf(m)
    requires ItemKey(s, it).Some? && ItemKey(s, it).value in m.res
    requires m.res[ItemKey(s, it).value].record != it.xml
    ensures Step(s, m, it).Ok?
    ensures ReplacedBy(m, ItemKey(s, it).value, it.xml, Step(s, m, it).value)
  {
    var k := ItemKey(s, it).value;
    assert Step(s, m, it) == Ok(Modify(m, k, it.xml));
    ModifyEffect(m, k, it.xml);
  }

  lemma ModifyEffect(m: Merge, k: XmlId, xml: Record)
    requires Wf(m) && k in m.res
    ensures ReplacedBy(m, k, xml, Modify(m, k, xml))
  {
    ReplacedEffect(m, k, xml, Modify(m, k, xml));
  }

  lemma ReplacedEffect(m: Merge, k: XmlId, xml: Record, n: Merge)
    requires Wf(m) && Replaced(m, k, xml, n)
    ensures ReplacedBy(m, k, xml, n)
  {
    var t := m.res[k];
    ReplaceAtEffect(m.files[t.filename].content, t.loc, xml);
  }

  lemma ReplaceAtEffect(d: Doc, l: Loc, r: Record)
    requires ValidLoc(d, l)
    ensures var e := ReplaceAt(d, l, r);
            && SameShape(d, e) && ValidLoc(e, l) && At(e, l) == r
            && (forall l' :: ValidLoc(d, l') && l' != l ==> ValidLoc(e, l') && At(e, l') == At(d, l'))
  {
  }

  /** `n` is `m` after `xml` was appended to the first element of file
      `f`: the ids stay, every earlier element of `f` stays, and no other
      file changes. */
  ghost predicate AppendedTo(m: Merge, f: string, xml: Record, n: Merge)
  {
    var before := TargetDoc(m, f);
    var after := TargetDoc(n, f);
    && n.res == m.res
    && |before.sections| > 0 && |after.sections| == |before.sections|
    && after.sections[0].records == before.sections[0].records + [xml]
    && after.sections[1..] == before.sections[1..]
    && (forall g :: g != f ==> TargetDoc(n, g) == TargetDoc(m, g))
    && (f in m.files <==> f in n.files)
    && n.written == m.written + {f}
    && n.outcomes == m.outcomes + [Added]
  }

  /** An untracked item is appended as the last child of the first element
      of its target file, which is the tracked file, the file this import
      already started, or an empty data file. The item is not tracked. */
  lemma StepAdded(s: Session, m: Merge, it: Item)
    requires Wf(m)
    requires ItemKey(s, it).Some? && ItemKey(s, it).value !in m.res
    requires FileNameFor(it.obj, s.labelFmt).Ok?
    requires |TargetDoc(m, FileNameFor(it.obj, s.labelFmt).value).sections| > 0
    ensures Step(s, m, it).Ok?
    ensures AppendedTo(m, FileNameFor(it.obj, s.labelFmt).value, it.xml, Step(s, m, it).value)
  {
    var f := FileNameFor(it.obj, s.labelFmt).value;
    var d := AppendFirst(TargetDoc(m, f), it.xml).value;
    assert Step(s, m, it) == Ok(AddTo(m, f, d));
    AddToEffect(m, f, it.xml, d);
  }

  lemma AddToEffect(m: Merge, f: string, xml: Record, d: Doc)
    requires Wf(m) && AppendFirst(TargetDoc(m, f), xml) == Ok(d)
    ensures AppendedTo(m, f, xml, AddTo(m, f, d))
  {
  }

  /** A step fails exactly when the registry has no id for the object, or
      when an untracked record's label cannot be rendered or its target
      file has no element to append to. */
  lemma StepFails(s: Session, m: Merge, it: Item)
    requires Wf(m)
    ensures Step(s, m, it).Fail? <==>
              || ItemKey(s, it).None?
              || (&& ItemKey(s, it).value !in m.res
                  && (|| FileNameFor(it.obj, s.labelFmt).Fail?
                      || |TargetDoc(m, FileNameFor(it.obj, s.labelFmt).value).sections| == 0))
    ensures ItemKey(s, it).None? ==> Step(s, m, it).Fail? && Step(s, m, it).error.TypeError?
    ensures ItemKey(s, it).Some? && ItemKey(s, it).value !in m.res && FileNameFor(it.obj, s.labelFmt).Ok?
            && |TargetDoc(m, FileNameFor(it.obj, s.labelFmt).value).sections| == 0 ==>
              Step(s, m, it).Fail? && Step(s, m, it).error.IndexError?
  {
  }

  // ---------------------------------------------------------------------
  // The whole batch

  /** The import loop over a batch, stopping at the first error. */
  function ImportAll(s: Session, m: Merge, items: seq<Item>): (r: Result<Merge>)
    requires Wf(m)
    ensures r.Ok? ==> Wf(r.value) && Keeps(m, r.value) && |r.value.outcomes| == |m.outcomes| + |items|
    decreases |items|
  {
    if |items| == 0 then Ok(m)
    else
      match ImportAll(s, m, items[..|items| - 1])
      case Fail(e) => Fail(e)
      case Ok(mid) => Step(s, mid, items[|items| - 1])
  }

  /** The file an item would touch if it is not a no-op: its tracked file,
      or the file its label names. */
  function TargetFile(s: Session, res: map<XmlId, Tracked>, it: Item): Option<string>
  {
    match ItemKey(s, it)
    case None => None
    case Some(k) =>
      if k in res then Some(res[k].filename)
      else match FileNameFor(it.obj, s.labelFmt)
        case Fail(_) => None
        case Ok(f) => Some(f)
  }

  /** The file one item touches, given its outcome. */
  function StepTouched(s: Session, res: map<XmlId, Tracked>, it: Item, o: Outcome): set<string>
  {
    var f := TargetFile(s, res, it);
    if o != Noop && f.Some? then {f.value} else {}
  }

  /** The files the non-no-op items of a batch touch, given their outcomes. */
  function Touched(s: Session, res: map<XmlId, Tracked>, items: seq<Item>, outs: seq<Outcome>): set<string>
    requires |outs| == |items|
    decreases |items|
  {
    if |items| == 0 then {}
    else Touched(s, res, items[..|items| - 1], outs[..|outs| - 1]) + StepTouched(s, res, items[|items| - 1], outs[|outs| - 1])
  }

  /** One step touches the target file of its item unless it is a no-op. */
  lemma StepWritten(s: Session, m: Merge, it: Item)
    requires Wf(m) && Step(s, m, it).Ok?
    ensures var n := Step(s, m, it).value;
            n.written == m.written + StepTouched(s, m.res, it, n.outcomes[|m.outcomes|])
  {
    var k := ItemKey(s, it).value;
    if k !in m.res {
      AddedWritten(s, m, it);
    } else if m.res[k].record != it.xml {
      ModifiedWritten(s, m, it);
    } else {
      NoopWritten(s, m, it);
    }
  }

  lemma NoopWritten(s: Session, m: Merge, it: Item)
    requires Wf(m) && Step(s, m, it).Ok?
    requires ItemKey(s, it).value in m.res && m.res[ItemKey(s, it).value].record == it.xml
    ensures var n := Step(s, m, it).value;
            n.written == m.written + StepTouched(s, m.res, it, n.outcomes[|m.outcomes|])
  {
  }

  lemma ModifiedWritten(s: Session, m: Merge, it: Item)
    requires Wf(m) && Step(s, m, it).Ok?
    requires ItemKey(s, it).value in m.res && m.res[ItemKey(s, it).value].record != it.xml
    ensures var n := Step(s, m, it).value;
            n.written == m.written + StepTouched(s, m.res, it, n.outcomes[|m.outcomes|])
  {
    var k := ItemKey(s, it).value;
    var n := Modify(m, k, it.xml);
    ModifyWritten(m, k, it.xml);
    assert Step(s, m, it) == Ok(n);
    assert StepTouched(s, m.res, it, Modified) == {m.res[k].filename} by {
      assert TargetFile(s, m.res, it) == Some(m.res[k].filename);
    }
  }

  lemma AddedWritten(s: Session, m: Merge, it: Item)
    requires Wf(m) && Step(s, m, it).Ok?
    requires ItemKey(s, it).value !in m.res
    ensures var n := Step(s, m, it).value;
            n.written == m.written + StepTouched(s, m.res, it, n.outcomes[|m.outcomes|])
  {
    var f := FileNameFor(it.obj, s.labelFmt).value;
    AddToWritten(m, f, AppendFirst(TargetDoc(m, f), it.xml).value);
  }

  lemma ModifyWritten(m: Merge, k: XmlId, xml: Record)
    requires Wf(m) && k in m.res
    ensures Modify(m, k, xml).written == m.written + {m.res[k].filename}
    ensures Modify(m, k, xml).outcomes[|m.outcomes|] == Modified
  {
  }

  lemma AddToWritten(m: Merge, f: string, d: Doc)
    requires Wf(m)
    requires forall l :: ValidLoc(TargetDoc(m, f), l) ==> ValidLoc(d, l) && At(d, l) == At(TargetDoc(m, f), l)
    ensures AddTo(m, f, d).written == m.written + {f}
    ensures AddTo(m, f, d).outcomes[|m.outcomes|] == Added
  {
  }

  /** Targets depend only on the ids and their files, which a merge keeps. */
  lemma TargetFileKept(s: Session, m: Merge, n: Merge, it: Item)
    requires Keeps(m, n)
    ensures TargetFile(s, n.res, it) == TargetFile(s, m.res, it)
  {
  }

  /** Only files touched by modified or added records are written. */
  lemma {:induction false} ImportWritten(s: Session, m: Merge, items: seq<Item>)
    requires Wf(m) && ImportAll(s, m, items).Ok?
    ensures var n := ImportAll(s, m, items).value;
            n.written == m.written + Touched(s, m.res, items, n.outcomes[|m.outcomes|..])
    decreases |items|
  {
    if |items| > 0 {
      var init := items[..|items| - 1];
      var last := items[|items| - 1];
      var mid := ImportAll(s, m, init).value;
      var n := ImportAll(s, m, items).value;
      assert n == Step(s, mid, last).value;
      ImportWritten(s, m, init);
      StepWritten(s, mid, last);
      TargetFileKept(s, m, mid, last);
      OutcomesSnoc(m.outcomes, mid.outcomes, n.outcomes);
    }
  }

  /** The outcomes added by a batch are those added by its prefix, then
      one more. */
  lemma OutcomesSnoc(a: seq<Outcome>, b: seq<Outcome>, c: seq<Outcome>)
    requires |a| <= |b| && b[..|a|] == a
    requires |c| == |b| + 1 && c[..|b|] == b
    ensures var outs := c[|a|..];
            && |outs| > 0
            && outs[..|outs| - 1] == b[|a|..]
            && outs[|outs| - 1] == c[|b|]
  {
  }

  function Noops(n: nat): (r: seq<Outcome>)
    ensures |r| == n && forall i :: 0 <= i < n ==> r[i] == Noop
  {
    if n == 0 then [] else Noops(n - 1) + [Noop]
  }

  /** A batch whose every record equals its tracked record is all no-ops:
      nothing is replaced, added or written. */
  lemma {:induction false} ReimportUnchanged(s: Session, m: Merge, items: seq<Item>)
    requires Wf(m) && RecordsIn(s, m.res, items)
    ensures ImportAll(s, m, items) == Ok(m.(outcomes := m.outcomes + Noops(|items|)))
    decreases |items|
  {
    if |items| > 0 {
      var init := items[..|items| - 1];
      var last := items[|items| - 1];
      assert RecordsIn(s, m.res, init);
      ReimportUnchanged(s, m, init);
      var mid := m.(outcomes := m.outcomes + Noops(|init|));
      assert ImportAll(s, m, items) == Step(s, mid, last);
      WfOutcomes(m, mid.outcomes);
      StepNoop(s, mid, last);
      NoopsSnoc(m.outcomes, |init|);
    } else {
      assert m.outcomes + Noops(0) == m.outcomes;
    }
  }

  lemma WfOutcomes(m: Merge, o: seq<Outcome>)
    requires Wf(m)
    ensures Wf(m.(outcomes := o))
  {
  }

  lemma NoopsSnoc(o: seq<Outcome>, n: nat)
    ensures o + Noops(n) + [Noop] == o + Noops(n + 1)
  {
  }

  /** All items tracked under distinct ids: after the import each id holds
      its item's record. */
  ghost predicate TrackedDistinct(s: Session, res: map<XmlId, Tracked>, items: seq<Item>)
  {
    && (forall i :: 0 <= i < |items| ==> ItemKey(s, items[i]).Some? && ItemKey(s, items[i]).value in res)
    && (forall i, j :: 0 <= i < j < |items| ==> ItemKey(s, items[i]) != ItemKey(s, items[j]))
  }

  /** Each item's record is the one tracked under its id. */
  ghost predicate RecordsIn(s: Session, res: map<XmlId, Tracked>, items: seq<Item>)
  {
    forall i :: 0 <= i < |items| ==>
      ItemKey(s, items[i]).Some? && ItemKey(s, items[i]).value in res
      && res[ItemKey(s, items[i]).value].record == items[i].xml
  }

  lemma {:induction false} ImportTrackedRecords(s: Session, m: Merge, items: seq<Item>)
    requires Wf(m) && TrackedDistinct(s, m.res, items)
    ensures ImportAll(s, m, items).Ok?
    ensures RecordsIn(s, ImportAll(s, m, items).value.res, items)
    decreases |items|
  {
    if |items| > 0 {
      var init := items[..|items| - 1];
      var last := items[|items| - 1];
      assert TrackedDistinct(s, m.res, init);
      ImportTrackedRecords(s, m, init);
      var mid := ImportAll(s, m, init).value;
      assert ImportAll(s, m, items) == Step(s, mid, last);
      TrackedStep(s, mid, last);
      var n := Step(s, mid, last).value;
      RecordsInSnoc(s, mid.res, n.res, items);
      assert ImportAll(s, m, items).value == n;
    }
  }

  /** Appending an item tracked under a fresh id keeps the earlier items'
      records. */
  lemma RecordsInSnoc(s: Session, res0: map<XmlId, Tracked>, res1: map<XmlId, Tracked>, items: seq<Item>)
    requires |items| > 0 && RecordsIn(s, res0, items[..|items| - 1])
    requires forall i, j :: 0 <= i < j < |items| ==> ItemKey(s, items[i]) != ItemKey(s, items[j])
    requires ItemKey(s, items[|items| - 1]).Some? && ItemKey(s, items[|items| - 1]).value in res1
    requires res1[ItemKey(s, items[|items| - 1]).value].record == items[|items| - 1].xml
    requires forall j :: j in res0 && j != ItemKey(s, items[|items| - 1]).value ==> j in res1 && res1[j] == res0[j]
    ensures RecordsIn(s, res1, items)
  {
    var init := items[..|items| - 1];
    forall i | 0 <= i < |items|
      ensures ItemKey(s, items[i]).Some? && ItemKey(s, items[i]).value in res1
      ensures res1[ItemKey(s, items[i]).value].record == items[i].xml
    {
      if i < |init| {
        assert items[i] == init[i];
      }
    }
  }

  /** Importing a tracked item leaves its record in place of the tracked
      one and every other id as it was. */
  lemma TrackedStep(s: Session, m: Merge, it: Item)
    requires Wf(m) && ItemKey(s, it).Some? && ItemKey(s, it).value in m.res
    ensures Step(s, m, it).Ok?
    ensures var n := Step(s, m, it).value;
            var k := ItemKey(s, it).value;
            && n.res[k].record == it.xml
            && forall j :: j in m.res && j != k ==> n.res[j] == m.res[j]
  {
    if m.res[ItemKey(s, it).value].record == it.xml {
      StepNoop(s, m, it);
    } else {
      StepModified(s, m, it);
    }
  }

  /** Importing a batch of tracked records under distinct ids a second
      time, from the state the first import left, changes nothing. */
  lemma ReimportIsNoop(s: Session, m: Merge, items: seq<Item>)
    requires Wf(m) && TrackedDistinct(s, m.res, items)
    ensures ImportAll(s, m, items).Ok?
    ensures var n := ImportAll(s, m, items).value;
            ImportAll(s, n, items) == Ok(n.(outcomes := n.outcomes + Noops(|items|)))
  {
    ImportTrackedRecords(s, m, items);
    var n := ImportAll(s, m, items).value;
    ReimportUnchanged(s, n, items);
  }

  /** New records are not tracked, so an untracked record imported twice
      in one batch is appended twice. */
  lemma UntrackedTwiceAppendedTwice(s: Session, m: Merge, it: Item)
    requires Wf(m)
    requires ItemKey(s, it).Some? && ItemKey(s, it).value !in m.res
    requires FileNameFor(it.obj, s.labelFmt).Ok?
    requires |TargetDoc(m, FileNameFor(it.obj, s.labelFmt).value).sections| > 0
    ensures ImportAll(s, m, [it, it]).Ok?
    ensures var n := ImportAll(s, m, [it, it]).value;
            var f := FileNameFor(it.obj, s.labelFmt).value;
            && n.outcomes == m.outcomes + [Added, Added]
            && TargetDoc(n, f).sections[0].records == TargetDoc(m, f).sections[0].records + [it.xml, it.xml]
  {
    var f := FileNameFor(it.obj, s.labelFmt).value;
    StepAppends(s, m, it, f);
    var m1 := Step(s, m, it).value;
    ImportAllSnoc(s, m, [it], m);
    StepAppends(s, m1, it, f);
    ImportAllSnoc(s, m, [it, it], m1);
  }

  /** The batch ends with the step of its last item. */
  lemma ImportAllSnoc(s: Session, m: Merge, items: seq<Item>, mid: Merge)
    requires Wf(m) && |items| > 0
    requires ImportAll(s, m, items[..|items| - 1]) == Ok(mid)
    ensures Wf(mid)
    ensures ImportAll(s, m, items) == Step(s, mid, items[|items| - 1])
  {
  }

  /** The part of `StepAdded` a repeated append needs. */
  lemma StepAppends(s: Session, m: Merge, it: Item, f: string)
    requires Wf(m)
    requires ItemKey(s, it).Some? && ItemKey(s, it).value !in m.res
    requires FileNameFor(it.obj, s.labelFmt) == Ok(f)
    requires |TargetDoc(m, f).sections| > 0
    ensures Step(s, m, it).Ok?
    ensures var n := Step(s, m, it).value;
            && n.res == m.res
            && |TargetDoc(n, f).sections| > 0
            && TargetDoc(n, f).sections[0].records == TargetDoc(m, f).sections[0].records + [it.xml]
            && n.outcomes == m.outcomes + [Added]
  {
    StepAdded(s, m, it);
  }

  // ---------------------------------------------------------------------
  // Writing and callbacks

  /** The content written for each touched file. */
  function Outputs(m: Merge): (r: map<string, Doc>)
    requires Wf(m)
    ensures r.Keys == m.written
    ensures forall f :: f in r && f in m.files ==> r[f] == m.files[f].content
    ensures forall f :: f in r && f !in m.files ==> f in m.started && r[f] == m.started[f]
  {
    map f | f in m.written :: TargetDoc(m, f)
  }

  /** `add_xml` for each written file, in the order the files are
      enumerated; the first failure stops the loop. */
  function Register(data: Option<seq<string>>, order: seq<string>): Result<Option<seq<string>>>
    decreases |order|
  {
    if |order| == 0 then Ok(data)
    else
      match Register(data, order[..|order| - 1])
      case Fail(err) => Fail(err)
      case Ok(d) =>
        match AddXml(d, order[|order| - 1])
        case Fail(err) => Fail(err)
        case Ok(v) => Ok(Some(v))
  }

  /** Whatever the enumeration order of the written files, a manifest
      with a `data` list keeps its entries in place, gains exactly the
      written files it lacked, and gains no duplicate; a manifest without
      one fails with a `KeyError` as soon as a file is written. */
  lemma {:induction false} RegisterAll(data: Option<seq<string>>, order: seq<string>)
    ensures var r := Register(data, order);
            && (r.Fail? <==> data.None? && |order| > 0)
            && (r.Fail? ==> r.error == KeyError("data"))
            && (r.Ok? ==> r.value.Some? == data.Some?)
            && (r.Ok? && data.Some? ==>
                  var m := data.value;
                  var d := r.value.value;
                  && |m| <= |d| && d[..|m|] == m
                  && (forall f :: f in d <==> f in m || f in order)
                  && (NoDup(m) ==> NoDup(d)))
    decreases |order|
  {
    if |order| > 0 {
      var init := order[..|order| - 1];
      RegisterAll(data, init);
      assert forall f :: f in order <==> f in init || f == order[|order| - 1];
      match Register(data, init)
      case Fail(_) =>
      case Ok(mid) =>
        var r := Register(data, order);
        if data.Some? {
          var d := r.value.value;
          assert d[..|mid.value|] == mid.value;
          assert d[..|data.value|] == mid.value[..|data.value|];
        }
    }
  }

  /** Registered callbacks: per (model, id) key and per event name, the
      callbacks in registration order with the object they were given. */
  type Callbacks<C> = map<(string, int), map<string, seq<(Obj, C)>>>

  /** `_add_callback`. */
  function AddCallback<C>(cbs: Callbacks<C>, r: Obj, event: string, cb: C): (res: Callbacks<C>)
    ensures (r.model, r.ref) in res && event in res[(r.model, r.ref)]
    ensures forall key :: key in cbs ==> key in res
  {
    var key := (r.model, r.ref);
    var events := if key in cbs then cbs[key] else map[];
    var list := if event in events then events[event] else [];
    cbs[key := events[event := list + [(r, cb)]]]
  }

  /** `_trigger_event`: the calls made, in order, each with the object
      the callback was registered with. */
  function Triggered<C>(cbs: Callbacks<C>, r: Obj, event: string): (res: seq<(Obj, C)>)
    ensures (r.model, r.ref) !in cbs ==> res == []
  {
    var key := (r.model, r.ref);
    if key in cbs && event in cbs[key] then cbs[key][event] else []
  }

  /** A registered callback fires after the ones registered before it for
      the same key and event, and registering changes nothing else. */
  lemma AddThenTrigger<C>(cbs: Callbacks<C>, r: Obj, event: string, cb: C, o: Obj, e: string)
    ensures Triggered(AddCallback(cbs, r, event, cb), o, e) ==
            Triggered(cbs, o, e) + (if (o.model, o.ref) == (r.model, r.ref) && e == event then [(r, cb)] else [])
  {
  }

  /** The `write` calls for a batch: every item, no-ops included, in batch
      order. */
  function WriteCalls<C>(cbs: Callbacks<C>, items: seq<Item>): (res: seq<(Obj, C)>)
    ensures (forall i :: 0 <= i < |items| ==> (items[i].obj.model, items[i].obj.ref) !in cbs) ==> res == []
    decreases |items|
  {
    if |items| == 0 then []
    else WriteCalls(cbs, items[..|items| - 1]) + Triggered(cbs, items[|items| - 1].obj, "write")
  }

  /** The result of `_record_import`: the merge, the content of each file
      it writes, and the callbacks it calls. */
  datatype Report<C> = Report(merge: Merge, outputs: map<string, Doc>, calls: seq<(Obj, C)>)

  /** The report of a batch whose merge went through. */
  function Finish<C>(s: Session, m: Merge, cbs: Callbacks<C>, items: seq<Item>, n: Merge): (r: Report<C>)
    requires Wf(m) && m.written == {} && m.outcomes == [] && ImportAll(s, m, items) == Ok(n)
    ensures r.merge == n && r.outputs.Keys == n.written && r.calls == WriteCalls(cbs, items)
    ensures n.res.Keys == m.res.Keys && |n.outcomes| == |items|
    ensures n.written == Touched(s, m.res, items, n.outcomes)
  {
    ImportWritten(s, m, items);
    assert n.outcomes[|m.outcomes|..] == n.outcomes;
    Report(n, Outputs(n), WriteCalls(cbs, items))
  }

  function Import<C>(s: Session, res: map<XmlId, Tracked>, files: map<string, TrackedFile>,
                     cbs: Callbacks<C>, items: seq<Item>, data: Option<seq<string>>): (r: Result<Report<C>>)
    requires Coherent(res, files)
    ensures r.Ok? ==>
              && r.value.merge.res.Keys == res.Keys
              && |r.value.merge.outcomes| == |items|
              && r.value.outputs.Keys == r.value.merge.written
              && r.value.merge.written == Touched(s, res, items, r.value.merge.outcomes)
              && r.value.calls == WriteCalls(cbs, items)
    ensures var all := ImportAll(s, Merge(res, files, map[], {}, []), items);
            && (r.Fail? <==> all.Fail? || (data.None? && all.value.written != {}))
            && (r.Fail? && all.Ok? ==> r.error == KeyError("data"))
  {
    var m := Merge(res, files, map[], {}, []);
    var all := ImportAll(s, m, items);
    if all.Fail? then Fail(all.error)
    else if data.None? && all.value.written != {} then Fail(KeyError("data"))
    else Ok(Finish(s, m, cbs, items, all.value))
  }
}
