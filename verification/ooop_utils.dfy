/** Identifier and record helpers shared by the record commands: xml-id
    string/tuple conversion, model-name normalisation, the displayable
    fields of a remote record, and the translation of command-line filters
    into record-store filters. */
module OoopUtils {

  import opened Base
  import opened Text
  import opened Values

  /** An xml id as a `(module, name)` tuple; the module may be absent. */
  datatype XmlId = XmlId(mod: Option<string>, name: string)

  /** `xmlid2tuple`: split at the first `.`; without one, the default module. */
  function Xmlid2Tuple(xmlid: string, default: Option<string>): (r: XmlId)
    ensures '.' !in xmlid ==> r == XmlId(default, xmlid)
    ensures '.' in xmlid ==> r.mod.Some? && '.' !in r.mod.value &&
                             xmlid == r.mod.value + "." + r.name
  {
    match SplitOnce(xmlid, '.')
    case None => XmlId(default, xmlid)
    case Some((m, n)) => XmlId(Some(m), n)
  }

  /** Python truthiness of an optional module name. */
  predicate Given(m: Option<string>)
  {
    m.Some? && m.value != ""
  }

  /** `tuple2xmlid`: the module is left out when absent or equal to a
      non-empty default. */
  function Tuple2Xmlid(t: XmlId, default: Option<string>): string
  {
    if t.mod.None? || (Given(default) && t.mod == default) then t.name
    else t.mod.value + "." + t.name
  }

  /** Tuple → string → tuple is the identity for tuples whose parts contain
      no dot. */
  lemma TupleRoundTrip(m: string, l: string, default: Option<string>)
    requires '.' !in m && '.' !in l
    ensures Xmlid2Tuple(Tuple2Xmlid(XmlId(Some(m), l), default), default) == XmlId(Some(m), l)
  {
    var t := XmlId(Some(m), l);
    if !(Given(default) && t.mod == default) {
      IndexOfAfter(m, '.', l);
      assert m + "." + l == m + ['.'] + l;
    }
  }

  /** String → tuple → string gives the string back, except that the default
      module's prefix is dropped and that an empty default module renders
      unqualified names with a leading dot. */
  lemma StringRoundTrip(x: string, default: Option<string>)
    ensures Tuple2Xmlid(Xmlid2Tuple(x, default), default) ==
      if '.' !in x then
        (if default == Some("") then "." + x else x)
      else
        var t := Xmlid2Tuple(x, default);
        if Given(default) && t.mod == default then t.name else x
  {
  }

  /** Python's `str.capitalize` on ASCII: first letter upper, the rest lower. */
  function Capitalize(s: string): (r: string)
    ensures |r| == |s|
  {
    if |s| == 0 then "" else [ToUpper(s[0])] + LowerAll(s[1..])
  }

  function LowerAll(s: string): (r: string)
    ensures |r| == |s|
    ensures forall i :: 0 <= i < |s| ==> r[i] == ToLower(s[i])
  {
    if |s| == 0 then "" else [ToLower(s[0])] + LowerAll(s[1..])
  }

  function ConcatAll(ps: seq<string>): string
  {
    if |ps| == 0 then "" else ps[0] + ConcatAll(ps[1..])
  }

  /** `ooop_normalize_model_name`: `ir.model.data` → `IrModelData`. */
  function OoopNormalizeModelName(name: string): (r: string)
  {
    ConcatAll(CapitalizeAll(Split(name, '.')))
  }

  function CapitalizeAll(ps: seq<string>): (r: seq<string>)
    ensures |r| == |ps|
    ensures forall i :: 0 <= i < |ps| ==> r[i] == Capitalize(ps[i])
  {
    if |ps| == 0 then [] else [Capitalize(ps[0])] + CapitalizeAll(ps[1..])
  }

  /** The string with every dot removed. */
  function WithoutDots(s: string): (r: string)
  {
    if |s| == 0 then "" else (if s[0] == '.' then "" else [s[0]]) + WithoutDots(s[1..])
  }

  /** Up to letter case, the normalised name is the model name without its
      dots. */
  lemma {:induction false} NormalizeModelNameCaseFold(name: string)
    ensures LowerAll(OoopNormalizeModelName(name)) == LowerAll(WithoutDots(name))
  {
    var ps := Split(name, '.');
    JoinSplit(name, '.');
    CaseFoldPieces(ps);
    WithoutDotsJoin(ps);
  }

  lemma {:induction false} CaseFoldPieces(ps: seq<string>)
    ensures LowerAll(ConcatAll(CapitalizeAll(ps))) == LowerAll(ConcatAll(ps))
    decreases |ps|
  {
    if |ps| > 0 {
      CaseFoldPieces(ps[1..]);
      assert CapitalizeAll(ps)[1..] == CapitalizeAll(ps[1..]);
      LowerAllAppend(Capitalize(ps[0]), ConcatAll(CapitalizeAll(ps[1..])));
      LowerAllAppend(ps[0], ConcatAll(ps[1..]));
      assert LowerAll(Capitalize(ps[0])) == LowerAll(ps[0]);
    }
  }

  lemma LowerAllAppend(a: string, b: string)
    ensures LowerAll(a + b) == LowerAll(a) + LowerAll(b)
  {
  }

  /** Joining dot-free pieces with dots and then removing the dots is
      concatenating them. */
  lemma {:induction false} WithoutDotsJoin(ps: seq<string>)
    requires forall i :: 0 <= i < |ps| ==> '.' !in ps[i]
    ensures WithoutDots(Join(ps, '.')) == ConcatAll(ps)
    decreases |ps|
  {
    if |ps| == 1 {
      WithoutDotsFree(ps[0]);
      assert ConcatAll(ps) == ps[0] + ConcatAll([]);
    } else if |ps| > 1 {
      WithoutDotsJoin(ps[1..]);
      WithoutDotsAppend(ps[0] + ".", Join(ps[1..], '.'));
      WithoutDotsAppend(ps[0], ".");
      WithoutDotsFree(ps[0]);
      assert WithoutDots(".") == "" by { assert "."[1..] == ""; }
      assert Join(ps, '.') == ps[0] + "." + Join(ps[1..], '.');
    }
  }

  lemma {:induction false} WithoutDotsFree(s: string)
    requires '.' !in s
    ensures WithoutDots(s) == s
    decreases |s|
  {
    if |s| > 0 {
      assert s[0] in s;
      assert forall c :: c in s[1..] ==> c in s;
      WithoutDotsFree(s[1..]);
      assert [s[0]] + s[1..] == s;
    }
  }

  lemma {:induction false} WithoutDotsAppend(a: string, b: string)
    ensures WithoutDots(a + b) == WithoutDots(a) + WithoutDots(b)
    decreases |a|
  {
    if |a| > 0 {
      assert (a + b)[1..] == a[1..] + b;
      WithoutDotsAppend(a[1..], b);
    } else {
      assert a + b == b;
    }
  }

  lemma NormalizeModelNameExample()
    ensures OoopNormalizeModelName("ir.model.data") == "IrModelData"
  {
    var parts := ["ir", "model", "data"];
    JoinExample();
    SplitJoin(parts, '.');
    assert Split("ir.model.data", '.') == parts;
    CapitalizeExample();
    ConcatExample();
  }

  lemma ConcatExample()
    ensures ConcatAll(["Ir", "Model", "Data"]) == "IrModelData"
  {
    var caps := ["Ir", "Model", "Data"];
    assert caps[1..] == ["Model", "Data"] && caps[1..][1..] == ["Data"];
    assert ConcatAll(["Data"]) == "Data" + ConcatAll([]);
  }

  lemma JoinExample()
    ensures Join(["ir", "model", "data"], '.') == "ir.model.data"
  {
    var parts := ["ir", "model", "data"];
    assert parts[1..] == ["model", "data"] && parts[1..][1..] == ["data"];
    assert Join(["data"], '.') == "data";
    assert Join(["model", "data"], '.') == "model.data";
  }

  lemma CapitalizeExample()
    ensures CapitalizeAll(["ir", "model", "data"]) == ["Ir", "Model", "Data"]
  {
    assert Capitalize("ir") == "Ir";
    assert Capitalize("model") == "Model";
    assert Capitalize("data") == "Data";
    var parts := ["ir", "model", "data"];
    assert parts[1..] == ["model", "data"] && parts[1..][1..] == ["data"];
  }

  // ---------------------------------------------------------------------
  // Remote records

  /** A field of a remote record: its type name and current value. */
  datatype Field = Field(ttype: string, value: Value)

  /** A remote record: model, numeric id (`_ref`) and fields. */
  datatype Obj = Obj(model: string, ref: int, fields: map<string, Field>)

  /** `obj2dct`: fields whose type name has no `2` (so no relational
      `*2one`/`*2many`), plus `id`. */
  function Obj2Dct(obj: Obj): (r: map<string, Value>)
    ensures r.Keys == (set k | k in obj.fields && '2' !in obj.fields[k].ttype) + {"id"}
    ensures r["id"] == VInt(obj.ref)
    ensures forall k :: k in r && k != "id" ==> r[k] == obj.fields[k].value
  {
    (map k | k in obj.fields && '2' !in obj.fields[k].ttype :: obj.fields[k].value)["id" := VInt(obj.ref)]
  }

  // ---------------------------------------------------------------------
  // Command-line filters

  /** `_ooop_filter_from_date_bounds`: bound values arrive already formatted
      as timestamps. */
  function DateBoundFilters(field: string, start: Option<Value>, end: Option<Value>): (r: map<string, Value>)
    ensures r.Keys == (if start.Some? then {field + "__gt"} else {}) + (if end.Some? then {field + "__lt"} else {})
    ensures start.Some? ==> r[field + "__gt"] == start.value
    ensures end.Some? ==> r[field + "__lt"] == end.value
  {
    var m := if start.Some? then map[field + "__gt" := start.value] else map[];
    assert field + "__gt" != field + "__lt" by {
      assert (field + "__gt")[|field| + 2] == 'g';
    }
    if end.Some? then m[field + "__lt" := end.value] else m
  }

  /** The wall clock, as an oracle: `_date_from_find_spec` (the bounds of a
      relative `+N`/`-N`/`N` time spec, `None` when it is not a number) and
      `_read_string_date` (`None` when no format reads the string). */
  datatype Clock = Clock(
    findSpec: (Value, string) -> Option<(Option<Value>, Option<Value>)>,
    readDate: Value -> Option<Value>)

  predicate IsDateLabel(key: string)
  {
    |key| > 0 && (key[0] == 'm' || key[0] == 'c') &&
    (key[1..] == "hours" || key[1..] == "minutes" || key[1..] == "days")
  }

  /** The filters one command-line option contributes. */
  function FilterEntry(key: string, value: Value, clock: Clock): Result<map<string, Value>>
  {
    if !Truthy(value) then Ok(map[])
    else if IsDateLabel(key) then
      match clock.findSpec(value, key[1..])
      case None => Fail(ValueError("bad time spec"))
      case Some((start, end)) =>
        Ok(DateBoundFilters(if key[0] == 'm' then "write_date" else "create_date", start, end))
    else if key == "model" then Ok(map["model" := value])
    else if key == "name" then Ok(map["name__like" := value])
    else if key == "tag" then Ok(map["name__like" := VStr("{" + Show(value) + "}%")])
    else if key == "since" then
      match clock.readDate(value)
      case None => Fail(ValueError("no format reads the date"))
      case Some(d) => Ok(DateBoundFilters("write_date", Some(d), None))
    else if key == "nid" then Ok(map["id" := value])
    else Ok(map[key := value])
  }

  /** `build_filters` over the options in the dictionary's iteration order;
      later options overwrite earlier keys. */
  function BuildFilters(opts: seq<(string, Value)>, clock: Clock): Result<map<string, Value>>
  {
    if |opts| == 0 then Ok(map[])
    else
      match BuildFilters(opts[..|opts| - 1], clock)
      case Fail(e) => Fail(e)
      case Ok(acc) =>
        match FilterEntry(opts[|opts| - 1].0, opts[|opts| - 1].1, clock)
        case Fail(e) => Fail(e)
        case Ok(m) => Ok(acc + m)
  }

  /** The key translation rules for one non-date option. */
  lemma FilterEntryRules(key: string, value: Value, clock: Clock)
    requires !IsDateLabel(key) && key != "since"
    ensures !Truthy(value) ==> FilterEntry(key, value, clock) == Ok(map[])
    ensures Truthy(value) ==> FilterEntry(key, value, clock) == Ok(
      if key == "name" then map["name__like" := value]
      else if key == "tag" then map["name__like" := VStr("{" + Show(value) + "}%")]
      else if key == "nid" then map["id" := value]
      else map[key := value])
  {
  }

  /** Options with a false value contribute nothing: dropping them leaves
      the filters unchanged. */
  lemma {:induction false} FalsyOptionsIgnored(opts: seq<(string, Value)>, clock: Clock)
    ensures BuildFilters(opts, clock) == BuildFilters(TruthyOnly(opts), clock)
    decreases |opts|
  {
    if |opts| > 0 {
      var init := opts[..|opts| - 1];
      var last := opts[|opts| - 1];
      FalsyOptionsIgnored(init, clock);
      if Truthy(last.1) {
        var t := TruthyOnly(opts);
        assert t == TruthyOnly(init) + [last];
        assert t[..|t| - 1] == TruthyOnly(init);
      } else {
        assert TruthyOnly(opts) == TruthyOnly(init) + [];
        assert TruthyOnly(init) + [] == TruthyOnly(init);
        assert FilterEntry(last.0, last.1, clock) == Ok(map[]);
        match BuildFilters(init, clock)
        case Fail(_) =>
        case Ok(acc) => assert acc + map[] == acc;
      }
    }
  }

  function TruthyOnly(opts: seq<(string, Value)>): seq<(string, Value)>
  {
    if |opts| == 0 then []
    else
      var last := opts[|opts| - 1];
      TruthyOnly(opts[..|opts| - 1]) + (if Truthy(last.1) then [last] else [])
  }
}
