/** The loader of the module's data files (`tracked_xml_ids`): every record
    declared in the files listed in the manifest is stored under its id
    with the ids it depends on; missing files, CSV files, records without id,
    unparsable `eval` expressions, undeclared foreign modules, references to
    ids not declared yet and dependency cycles are reported as warnings, and
    loading goes on. Two things stop it: an `eval` failure other than a
    syntax error, which the warning handler itself cannot format, and a
    foreign dependency when the manifest has no `depends` entry. */
module Loader {

  import opened Base
  import opened Text
  import opened OoopUtils
  import opened RefExtract
  import opened Graph
  import opened Corpus

  /** The record a warning is about: file, tag and id. */
  datatype Ctx = Ctx(file: string, tag: string, id: string)

  datatype Warning =
    | MissingFile(file: string)
    | CsvSkipped(file: string)
    | NoId(file: string, tag: string)
    | EvalFailed(at: Ctx, source: string)
    | UnsatisfiedModule(at: Ctx, dependency: string)
    | Undefined(at: Ctx, dep: XmlId)
    | Cyclic(at: Ctx)

  /** The module being edited (its directory name), the content of every
      existing file, and the parser of `eval` expressions. */
  datatype Env = Env(name: string, fs: map<string, Doc>, parse: string -> Option<Expr>)

  /** Loader state: stored ids, loaded files, the manifest's `depends` list
      (`None` when the manifest has no such entry), the warnings so far, and
      the dependencies of the file being loaded. */
  datatype State = State(
    res: map<XmlId, Tracked>,
    files: map<string, TrackedFile>,
    depends: Option<seq<string>>,
    warnings: seq<Warning>,
    fileDeps: set<XmlId>)

  /** The entries of a manifest list; an absent list has none. */
  function Listed(d: Option<seq<string>>): seq<string>
  {
    if d.Some? then d.value else []
  }

  /** An id as written in a file, read with the module as default. */
  function Key(env: Env, id: string): (k: XmlId)
    ensures k.mod.Some?
  {
    Xmlid2Tuple(id, Some(env.name))
  }

  /** A record the loader stores: not a comment, and carrying an `id`. */
  predicate Stored(r: Record)
  {
    r.tag != "comment" && "id" in r.attrs
  }

  function KeyOf(env: Env, r: Record): XmlId
    requires Stored(r)
  {
    Key(env, r.attrs["id"])
  }

  // ---------------------------------------------------------------------
  // Dependencies of one record

  function AttrDep(env: Env, r: Record, a: string): seq<XmlId>
  {
    if a in r.attrs && r.attrs[a] != "" then [Key(env, r.attrs[a])] else []
  }

  /** `action` and `parent` of a `menuitem`, when set. */
  function MenuDeps(env: Env, r: Record): seq<XmlId>
  {
    if r.tag == "menuitem" then AttrDep(env, r, "action") + AttrDep(env, r, "parent") else []
  }

  function Keys(env: Env, ids: seq<string>): (r: seq<XmlId>)
    ensures |r| == |ids| && forall i :: 0 <= i < |ids| ==> r[i] == Key(env, ids[i])
  {
    seq(|ids|, i requires 0 <= i < |ids| => Key(env, ids[i]))
  }

  /** An `eval` string whose failure escapes the warning handler: the
      handler reads the exception's `msg`, which only a `SyntaxError` has. */
  predicate EvalAborts(parse: string -> Option<Expr>, e: string)
  {
    GetRefsInEval(parse, e).Fail? && !GetRefsInEval(parse, e).error.SyntaxError?
  }

  /** The loop over a record's `eval` strings: the `ref` arguments of the
      strings that parse and the strings that do not, each in order. A
      string that does not parse is skipped and the others still
      contribute; any other failure makes the handler raise an
      `AttributeError`. */
  function EvalRefs(parse: string -> Option<Expr>, evals: seq<string>): (r: Result<(seq<string>, seq<string>)>)
    ensures r.Fail? <==> exists e :: e in evals && EvalAborts(parse, e)
    ensures r.Fail? ==> r.error.AttributeError?
    ensures r.Ok? ==> forall s :: s in r.value.0 <==>
              exists e :: e in evals && GetRefsInEval(parse, e).Ok? && s in GetRefsInEval(parse, e).value
    ensures r.Ok? ==> forall e :: e in r.value.1 <==> e in evals && parse(e).None?
  {
    if |evals| == 0 then Ok(([], []))
    else
      var init := evals[..|evals| - 1];
      var last := evals[|evals| - 1];
      assert forall e :: e in evals <==> e in init || e == last;
      match EvalRefs(parse, init)
      case Fail(err) => Fail(err)
      case Ok(before) =>
        match GetRefsInEval(parse, last)
        case Ok(refs) => Ok((before.0 + refs, before.1))
        case Fail(err) =>
          if err.SyntaxError? then Ok((before.0, before.1 + [last]))
          else
            assert EvalAborts(parse, last);
            Fail(AttributeError("msg"))
  }

  /** The `ref` arguments read from `eval` strings when the loop completes. */
  function EvalIds(parse: string -> Option<Expr>, evals: seq<string>): seq<string>
  {
    match EvalRefs(parse, evals)
    case Ok(v) => v.0
    case Fail(_) => []
  }

  /** The `eval` strings reported as unparsable when the loop completes. */
  function Unparsed(parse: string -> Option<Expr>, evals: seq<string>): seq<string>
  {
    match EvalRefs(parse, evals)
    case Ok(v) => v.1
    case Fail(_) => []
  }

  /** The dependency set of a record, in collection order. */
  function DepList(env: Env, r: Record): (d: seq<XmlId>)
    ensures NoDup(d)
    ensures forall x :: x in d ==> x.mod.Some?
  {
    Dedup(MenuDeps(env, r) + Keys(env, r.refs) + Keys(env, EvalIds(env.parse, r.evals)))
  }

  function DepsOf(env: Env, r: Record): set<XmlId>
  {
    set x | x in DepList(env, r)
  }

  /** A record depends on exactly: the `action` and `parent` of a menu item,
      every `ref` attribute, and every `ref('…')` literal of every `eval`
      string that parses, each read with the module as default. */
  lemma DepsCharacterised(env: Env, r: Record, x: XmlId)
    ensures EvalRefs(env.parse, r.evals).Ok? ==> (x in DepsOf(env, r) <==>
      || (r.tag == "menuitem" && "action" in r.attrs && r.attrs["action"] != "" && x == Key(env, r.attrs["action"]))
      || (r.tag == "menuitem" && "parent" in r.attrs && r.attrs["parent"] != "" && x == Key(env, r.attrs["parent"]))
      || (exists s :: s in r.refs && x == Key(env, s))
      || (exists e, s :: e in r.evals && GetRefsInEval(env.parse, e).Ok? &&
                         s in GetRefsInEval(env.parse, e).value && x == Key(env, s)))
  {
    var evs := EvalIds(env.parse, r.evals);
    assert x in DepsOf(env, r) <==> x in MenuDeps(env, r) + Keys(env, r.refs) + Keys(env, evs);
    KeysMember(env, r.refs, x);
    KeysMember(env, evs, x);
  }

  lemma KeysMember(env: Env, ids: seq<string>, x: XmlId)
    ensures x in Keys(env, ids) <==> exists s :: s in ids && x == Key(env, s)
  {
    if x in Keys(env, ids) {
      var i :| 0 <= i < |ids| && Keys(env, ids)[i] == x;
      assert ids[i] in ids;
    }
  }

  /** A dependency on a module other than the one being edited. */
  predicate Foreign(env: Env, x: XmlId)
  {
    x.mod != Some(env.name)
  }

  /** What loading a stored record raises, if anything: an `eval` failure
      the handler cannot report comes first; then, when the manifest has no
      `depends` entry (`listed` false), looking a foreign dependency up in
      it is a `KeyError`. */
  function RecordError(env: Env, listed: bool, rec: Record): (r: Option<Error>)
    ensures r.Some? <==> (exists e :: e in rec.evals && EvalAborts(env.parse, e)) ||
                         (!listed && exists x :: x in DepsOf(env, rec) && Foreign(env, x))
    ensures r.Some? ==> LoadError(listed, r.value)
  {
    match EvalRefs(env.parse, rec.evals)
    case Fail(err) => Some(err)
    case Ok(_) =>
      if !listed && exists x :: x in DepList(env, rec) && Foreign(env, x) then Some(KeyError("depends"))
      else None
  }

  /** The errors that can stop the loader. */
  predicate LoadError(listed: bool, err: Error)
  {
    err.AttributeError? || (!listed && err == KeyError("depends"))
  }

  /** A record whose loading raises. */
  predicate Aborting(env: Env, listed: bool, rec: Record)
  {
    Stored(rec) && RecordError(env, listed, rec).Some?
  }

  // ---------------------------------------------------------------------
  // Checking the dependencies of one record

  /** A same-module dependency that is reported: not stored yet and not a
      `model_` id. The local name is read again as an id, so a dotted local
      name is split once more. */
  predicate Flagged(env: Env, res: map<XmlId, Tracked>, x: XmlId)
  {
    x.mod == Some(env.name) && Key(env, x.name) !in res && !StartsWith(Key(env, x.name).name, "model_")
  }

  /** The modules named by the `UnsatisfiedModule` warnings, in order. */
  function Appended(ws: seq<Warning>): seq<string>
  {
    if |ws| == 0 then []
    else Appended(ws[..|ws| - 1]) +
         (if ws[|ws| - 1].UnsatisfiedModule? then [ws[|ws| - 1].dependency] else [])
  }

  lemma AppendedConcat(a: seq<Warning>, b: seq<Warning>)
    ensures Appended(a + b) == Appended(a) + Appended(b)
    decreases |b|
  {
    if |b| > 0 {
      assert (a + b)[..|a + b| - 1] == a + b[..|b| - 1];
      AppendedConcat(a, b[..|b| - 1]);
    } else {
      assert a + b == a;
    }
  }

  /** One dependency: a foreign module missing from `depends` is appended
      and reported; a same-module one is reported when `Flagged`. */
  function CheckDep(env: Env, res: map<XmlId, Tracked>, depends: seq<string>, at: Ctx, x: XmlId)
    : (r: (seq<string>, seq<Warning>))
    requires x.mod.Some?
    ensures r.0 == depends + (if x.mod.value != env.name && x.mod.value !in depends then [x.mod.value] else [])
    ensures Appended(r.1) == r.0[|depends|..]
    ensures forall w :: w in r.1 ==> (w.UnsatisfiedModule? || w.Undefined?) && w.at == at
    ensures forall w :: w in r.1 && w.Undefined? ==> w.dep == x && Flagged(env, res, x)
    ensures Flagged(env, res, x) ==> Undefined(at, x) in r.1
  {
    var m := x.mod.value;
    if m != env.name then
      if m !in depends then
        assert Appended([UnsatisfiedModule(at, m)]) == Appended([]) + [m];
        (depends + [m], [UnsatisfiedModule(at, m)])
      else (depends, [])
    else if Flagged(env, res, x) then
      assert Appended([Undefined(at, x)]) == Appended([]);
      (depends, [Undefined(at, x)])
    else (depends, [])
  }

  /** The `depends` list after checking `deps` in order: each foreign
      module it lacked is appended, once. */
  function Modules(name: string, depends: seq<string>, deps: seq<XmlId>): seq<string>
    decreases |deps|
  {
    if |deps| == 0 then depends
    else
      var d0 := Modules(name, depends, deps[..|deps| - 1]);
      match deps[|deps| - 1].mod
      case Some(m) => d0 + (if m != name && m !in d0 then [m] else [])
      case None => d0
  }

  /** All dependencies in order: `depends` only grows, by the foreign
      modules it lacked, each once and each with one warning. */
  function CheckDeps(env: Env, res: map<XmlId, Tracked>, depends: seq<string>, at: Ctx, deps: seq<XmlId>)
    : (r: (seq<string>, seq<Warning>))
    requires forall x :: x in deps ==> x.mod.Some?
    ensures r.0 == Modules(env.name, depends, deps)
    ensures |depends| <= |r.0| && r.0[..|depends|] == depends
    ensures Appended(r.1) == r.0[|depends|..]
  {
    if |deps| == 0 then (depends, [])
    else
      var init := deps[..|deps| - 1];
      var x := deps[|deps| - 1];
      assert forall y :: y in deps <==> y in init || y == x;
      var before := CheckDeps(env, res, depends, at, init);
      var last := CheckDep(env, res, before.0, at, x);
      AppendedConcat(before.1, last.1);
      assert Modules(env.name, depends, deps) == last.0;
      PrefixGrows(depends, before.0, last.0);
      (last.0, before.1 + last.1)
  }

  /** A prefix of a prefix, and the tail of the longer one splits. */
  lemma PrefixGrows(a: seq<string>, b: seq<string>, c: seq<string>)
    requires |a| <= |b| && b[..|a|] == a
    requires |b| <= |c| && c[..|b|] == b
    ensures c[..|a|] == a
    ensures c[|a|..] == b[|a|..] + c[|b|..]
  {
    assert c[..|a|] == c[..|b|][..|a|];
  }

  /** Checking adds to `depends` exactly the foreign modules of the
      dependencies, and never one twice. */
  lemma {:induction false} ModulesAdded(name: string, depends: seq<string>, deps: seq<XmlId>)
    requires forall x :: x in deps ==> x.mod.Some?
    ensures var d := Modules(name, depends, deps);
            && (forall m :: m in d <==> m in depends || exists x :: x in deps && x.mod == Some(m) && m != name)
            && (NoDup(depends) ==> NoDup(d))
    decreases |deps|
  {
    if |deps| > 0 {
      var init := deps[..|deps| - 1];
      var x := deps[|deps| - 1];
      assert forall y :: y in init ==> y in deps;
      ModulesAdded(name, depends, init);
      ModulesSnoc(name, depends, init, x, deps, Modules(name, depends, init), Modules(name, depends, deps));
    }
  }

  /** One more dependency adds its module when foreign and missing. */
  lemma ModulesSnoc(name: string, depends: seq<string>, init: seq<XmlId>, x: XmlId, deps: seq<XmlId>,
                    d0: seq<string>, d1: seq<string>)
    requires x.mod.Some? && deps == init + [x]
    requires forall m :: m in d0 <==> m in depends || exists y :: y in init && y.mod == Some(m) && m != name
    requires NoDup(depends) ==> NoDup(d0)
    requires d1 == d0 + (if x.mod.value != name && x.mod.value !in d0 then [x.mod.value] else [])
    ensures forall m :: m in d1 <==> m in depends || exists y :: y in deps && y.mod == Some(m) && m != name
    ensures NoDup(depends) ==> NoDup(d1)
  {
    forall m ensures m in d1 <==> m in depends || exists y :: y in deps && y.mod == Some(m) && m != name
    {
      if m in d1 && m !in depends {
        if m in d0 {
          var y :| y in init && y.mod == Some(m) && m != name;
          assert y in deps;
        } else {
          assert x in deps;
        }
      }
      if m !in depends && exists y :: y in deps && y.mod == Some(m) && m != name {
        var y :| y in deps && y.mod == Some(m) && m != name;
        if y != x {
          assert y in init;
        }
      }
    }
  }

  /** Dependencies all within the module leave `depends` as it is. */
  lemma {:induction false} ModulesLocal(name: string, depends: seq<string>, deps: seq<XmlId>)
    requires forall x :: x in deps ==> x.mod == Some(name)
    ensures Modules(name, depends, deps) == depends
    decreases |deps|
  {
    if |deps| > 0 {
      var init := deps[..|deps| - 1];
      assert forall x :: x in init ==> x in deps;
      ModulesLocal(name, depends, init);
    }
  }

  /** The warnings of `CheckDeps` are about the record at hand, and a
      dependency gets an `Undefined` warning iff it is `Flagged`. */
  lemma {:induction false} CheckDepsWarnings(env: Env, res: map<XmlId, Tracked>, depends: seq<string>, at: Ctx,
                                             deps: seq<XmlId>)
    requires forall x :: x in deps ==> x.mod.Some?
    ensures var ws := CheckDeps(env, res, depends, at, deps).1;
            && (forall w :: w in ws ==> (w.UnsatisfiedModule? || w.Undefined?) && w.at == at)
            && (forall x :: Undefined(at, x) in ws <==> x in deps && Flagged(env, res, x))
    decreases |deps|
  {
    if |deps| > 0 {
      var init := deps[..|deps| - 1];
      var x := deps[|deps| - 1];
      assert forall y :: y in deps <==> y in init || y == x;
      CheckDepsWarnings(env, res, depends, at, init);
      var (d0, w0) := CheckDeps(env, res, depends, at, init);
      var (d1, w1) := CheckDep(env, res, d0, at, x);
      assert CheckDeps(env, res, depends, at, deps).1 == w0 + w1;
    }
  }

  // ---------------------------------------------------------------------
  // Loading one record

  function DepGraph(res: map<XmlId, Tracked>): Graph<XmlId>
  {
    map k | k in res :: res[k].deps
  }

  function EvalWarnings(at: Ctx, failed: seq<string>): (r: seq<Warning>)
    ensures |r| == |failed| && forall i :: 0 <= i < |r| ==> r[i] == EvalFailed(at, failed[i])
    ensures forall w :: w in r ==> w.EvalFailed? && w.at == at
    ensures forall e :: EvalFailed(at, e) in r <==> e in failed
  {
    seq(|failed|, i requires 0 <= i < |failed| => EvalFailed(at, failed[i]))
  }

  /** A stored entry describes the record at its position in its file. */
  ghost predicate Placed(env: Env, k: XmlId, t: Tracked)
  {
    && t.filename in env.fs
    && ValidLoc(env.fs[t.filename], t.loc)
    && At(env.fs[t.filename], t.loc) == t.record
    && Stored(t.record) && KeyOf(env, t.record) == k
    && t.deps == DepsOf(env, t.record)
    && t.replaced == 0
  }

  /** Every foreign module a stored record depends on is in `depends`. */
  ghost predicate DependsDeclared(env: Env, res: map<XmlId, Tracked>, depends: seq<string>)
  {
    forall k, x :: k in res && x in res[k].deps ==> x.mod == Some(env.name) || (x.mod.Some? && x.mod.value in depends)
  }

  /** `depends` from one state to a later one: present exactly when it was,
      its entries kept in place with new ones only appended, and no
      duplicate added. */
  ghost predicate Grows(d: Option<seq<string>>, d': Option<seq<string>>)
  {
    && d.Some? == d'.Some?
    && |Listed(d)| <= |Listed(d')| && Listed(d')[..|Listed(d)|] == Listed(d)
    && (NoDup(Listed(d)) ==> NoDup(Listed(d')))
  }

  lemma GrowsTrans(a: Option<seq<string>>, b: Option<seq<string>>, c: Option<seq<string>>)
    requires Grows(a, b) && Grows(b, c)
    ensures Grows(a, c)
  {
    PrefixTrans(Listed(a), Listed(b), Listed(c));
  }

  /** The warnings issued for a single record. */
  predicate RecordLevel(w: Warning, file: string)
  {
    if w.NoId? then w.file == file
    else !w.MissingFile? && !w.CsvSkipped? && w.at.file == file
  }

  function CtxOf(file: string, rec: Record): Ctx
    requires Stored(rec)
  {
    Ctx(file, rec.tag, rec.attrs["id"])
  }

  /** `depends` and the dependency warnings after checking a stored record. */
  function RecordChecks(env: Env, st: State, file: string, rec: Record): (seq<string>, seq<Warning>)
    requires Stored(rec)
  {
    CheckDeps(env, st.res, Listed(st.depends), CtxOf(file, rec), DepList(env, rec))
  }

  function CycleWarning(res: map<XmlId, Tracked>, at: Ctx, key: XmlId): seq<Warning>
  {
    if CycleThrough(DepGraph(res), key) then [Cyclic(at)] else []
  }

  /** The warnings a stored record adds: its unparsable `eval` strings, its
      dependency checks, and the cycle check after it is stored. */
  function StoredWarnings(env: Env, st: State, file: string, item: (Loc, Record)): seq<Warning>
    requires Stored(item.1)
  {
    var rec := item.1;
    var at := CtxOf(file, rec);
    var res := st.res[KeyOf(env, rec) := Tracked(file, rec, DepsOf(env, rec), item.0, 0)];
    EvalWarnings(at, Unparsed(env.parse, rec.evals)) + RecordChecks(env, st, file, rec).1
      + CycleWarning(res, at, KeyOf(env, rec))
  }

  /** The state after a stored record that raises nothing: checked, then
      stored under its id (replacing an earlier one), then checked for a
      cycle through itself. */
  function StoreRecord(env: Env, st: State, file: string, item: (Loc, Record)): State
    requires Stored(item.1)
  {
    var rec := item.1;
    var checks := RecordChecks(env, st, file, rec);
    State(st.res[KeyOf(env, rec) := Tracked(file, rec, DepsOf(env, rec), item.0, 0)], st.files,
          if st.depends.Some? then Some(checks.0) else None,
          st.warnings + StoredWarnings(env, st, file, item), st.fileDeps + DepsOf(env, rec))
  }

  /** One child of a `data` element. A comment is skipped; a record without
      id is reported and skipped; any other record either raises or is
      stored under its id with its dependencies, every other entry kept. */
  function LoadRecord(env: Env, st: State, file: string, item: (Loc, Record)): (r: Result<State>)
    ensures r.Fail? <==> Aborting(env, st.depends.Some?, item.1)
    ensures r.Fail? ==> RecordError(env, st.depends.Some?, item.1) == Some(r.error)
    ensures r.Ok? ==> r.value.files == st.files && r.value.depends.Some? == st.depends.Some?
    ensures r.Ok? ==> r.value.res.Keys == st.res.Keys + (if Stored(item.1) then {KeyOf(env, item.1)} else {})
    ensures r.Ok? && Stored(item.1) ==>
              r.value.res[KeyOf(env, item.1)] == Tracked(file, item.1, DepsOf(env, item.1), item.0, 0)
    ensures r.Ok? ==> forall k :: k in st.res && !(Stored(item.1) && k == KeyOf(env, item.1)) ==>
                        r.value.res[k] == st.res[k]
    ensures r.Ok? ==> r.value.fileDeps == st.fileDeps + (if Stored(item.1) then DepsOf(env, item.1) else {})
    ensures r.Ok? && !Stored(item.1) ==>
              && r.value.depends == st.depends
              && r.value.warnings == st.warnings + (if item.1.tag == "comment" then [] else [NoId(file, item.1.tag)])
  {
    var rec := item.1;
    if rec.tag == "comment" then Ok(st)
    else if "id" !in rec.attrs then Ok(st.(warnings := st.warnings + [NoId(file, rec.tag)]))
    else
      match RecordError(env, st.depends.Some?, rec)
      case Some(err) => Fail(err)
      case None => Ok(StoreRecord(env, st, file, item))
  }

  /** Loading a record only appends to `depends`, never duplicates an
      entry, and keeps every foreign module of a stored dependency declared. */
  lemma LoadRecordDepends(env: Env, st: State, file: string, item: (Loc, Record))
    ensures var r := LoadRecord(env, st, file, item);
            r.Ok? ==>
              && Grows(st.depends, r.value.depends)
              && (DependsDeclared(env, st.res, Listed(st.depends)) ==>
                    DependsDeclared(env, r.value.res, Listed(r.value.depends)))
  {
    var rec := item.1;
    if Stored(rec) && LoadRecord(env, st, file, item).Ok? {
      var r := StoreRecord(env, st, file, item);
      assert LoadRecord(env, st, file, item) == Ok(r);
      var t := Tracked(file, rec, DepsOf(env, rec), item.0, 0);
      RecordChecksDepends(env, st, file, rec);
      if DependsDeclared(env, st.res, Listed(st.depends)) {
        DependsDeclaredStore(env, st.res, Listed(st.depends), Listed(r.depends), KeyOf(env, rec), t);
      }
    }
  }

  /** Checking a record keeps `depends` as a duplicate-free prefix and
      declares the foreign module of each of its dependencies. */
  lemma RecordChecksDepends(env: Env, st: State, file: string, rec: Record)
    requires Stored(rec)
    ensures var depends := RecordChecks(env, st, file, rec).0;
            var before := Listed(st.depends);
            && |before| <= |depends| && depends[..|before|] == before
            && (NoDup(before) ==> NoDup(depends))
            && (forall m :: m in before ==> m in depends)
            && (forall x :: x in DepsOf(env, rec) ==> x.mod == Some(env.name) || (x.mod.Some? && x.mod.value in depends))
  {
    var deps := DepList(env, rec);
    var d := RecordChecks(env, st, file, rec).0;
    assert d == Modules(env.name, Listed(st.depends), deps);
    ModulesAdded(env.name, Listed(st.depends), deps);
    forall x | x in DepsOf(env, rec)
      ensures x.mod == Some(env.name) || (x.mod.Some? && x.mod.value in d)
    {
      assert x in deps;
    }
  }

  /** Without a `depends` entry, a record that loads has no foreign
      dependency, so checking it appends nothing. */
  lemma UnlistedChecks(env: Env, st: State, file: string, rec: Record)
    requires Stored(rec) && st.depends.None? && RecordError(env, false, rec).None?
    ensures RecordChecks(env, st, file, rec).0 == []
    ensures forall x :: x in DepsOf(env, rec) ==> x.mod == Some(env.name)
  {
    var deps := DepList(env, rec);
    assert forall x :: x in deps ==> x.mod == Some(env.name) by {
      assert forall x :: x in deps ==> x in DepsOf(env, rec);
    }
    ModulesLocal(env.name, [], deps);
  }

  lemma DependsDeclaredStore(env: Env, res: map<XmlId, Tracked>, depends: seq<string>, depends': seq<string>,
                             key: XmlId, t: Tracked)
    requires DependsDeclared(env, res, depends)
    requires forall m :: m in depends ==> m in depends'
    requires forall x :: x in t.deps ==> x.mod == Some(env.name) || (x.mod.Some? && x.mod.value in depends')
    ensures DependsDeclared(env, res[key := t], depends')
  {
  }

  /** Loading a record only appends warnings, and all are about it. */
  lemma LoadRecordWarnings(env: Env, st: State, file: string, item: (Loc, Record))
    ensures var r := LoadRecord(env, st, file, item);
            r.Ok? ==>
              && |st.warnings| <= |r.value.warnings| && r.value.warnings[..|st.warnings|] == st.warnings
              && (forall w :: w in r.value.warnings[|st.warnings|..] ==> RecordLevel(w, file))
  {
    var r := LoadRecord(env, st, file, item);
    if r.Ok? {
      var added := if Stored(item.1) then StoredWarnings(env, st, file, item)
                   else if item.1.tag == "comment" then [] else [NoId(file, item.1.tag)];
      assert r.value.warnings == st.warnings + added;
      assert r.value.warnings[|st.warnings|..] == added;
      if Stored(item.1) {
        StoredWarningsLevel(env, st, file, item);
      }
    }
  }

  lemma StoredWarningsLevel(env: Env, st: State, file: string, item: (Loc, Record))
    requires Stored(item.1)
    ensures forall w :: w in StoredWarnings(env, st, file, item) ==> RecordLevel(w, file)
  {
    var rec := item.1;
    var at := CtxOf(file, rec);
    var res := st.res[KeyOf(env, rec) := Tracked(file, rec, DepsOf(env, rec), item.0, 0)];
    var ev := EvalWarnings(at, Unparsed(env.parse, rec.evals));
    var checks := RecordChecks(env, st, file, rec).1;
    var cyc := CycleWarning(res, at, KeyOf(env, rec));
    var ws := StoredWarnings(env, st, file, item);
    assert ws == ev + checks + cyc;
    CheckDepsWarnings(env, st.res, Listed(st.depends), at, DepList(env, rec));
    assert forall w :: w in cyc ==> w == Cyclic(at);
    forall w | w in ws ensures RecordLevel(w, file)
    {
      assert w.at == at;
    }
  }

  /** The warnings a stored record that loads adds, by kind: one per `eval`
      string that does not parse, one per foreign module appended to
      `depends`, one per `Flagged` dependency, and a cycle warning iff the
      stored record can reach itself through the stored dependencies. */
  lemma RecordWarnings(env: Env, st: State, file: string, item: (Loc, Record))
    requires Stored(item.1)
    ensures var r := LoadRecord(env, st, file, item);
            var at := CtxOf(file, item.1);
            r.Ok? ==>
              var added := r.value.warnings[|st.warnings|..];
              && (forall e :: EvalFailed(at, e) in added <==> e in item.1.evals && env.parse(e).None?)
              && Appended(added) == Listed(r.value.depends)[|Listed(st.depends)|..]
              && (forall x :: Undefined(at, x) in added <==> x in DepsOf(env, item.1) && Flagged(env, st.res, x))
              && (Cyclic(at) in added <==> Reachable(DepGraph(r.value.res), KeyOf(env, item.1), KeyOf(env, item.1)))
  {
    var r := LoadRecord(env, st, file, item);
    if r.Ok? {
      assert r.value == StoreRecord(env, st, file, item);
      assert r.value.warnings[|st.warnings|..] == StoredWarnings(env, st, file, item);
      StoredWarningsKinds(env, st, file, item);
      StoredWarningsCycle(env, st, file, item);
      if st.depends.None? {
        UnlistedChecks(env, st, file, item.1);
      }
    }
  }

  lemma StoredWarningsKinds(env: Env, st: State, file: string, item: (Loc, Record))
    requires Stored(item.1) && EvalRefs(env.parse, item.1.evals).Ok?
    ensures var ws := StoredWarnings(env, st, file, item);
            var at := CtxOf(file, item.1);
            && (forall e :: EvalFailed(at, e) in ws <==> e in item.1.evals && env.parse(e).None?)
            && Appended(ws) == RecordChecks(env, st, file, item.1).0[|Listed(st.depends)|..]
            && (forall x :: Undefined(at, x) in ws <==> x in DepsOf(env, item.1) && Flagged(env, st.res, x))
  {
    var rec := item.1;
    var at := CtxOf(file, rec);
    var res := st.res[KeyOf(env, rec) := Tracked(file, rec, DepsOf(env, rec), item.0, 0)];
    var failed := Unparsed(env.parse, rec.evals);
    var ev := EvalWarnings(at, failed);
    var checks := RecordChecks(env, st, file, rec).1;
    var cyc := CycleWarning(res, at, KeyOf(env, rec));
    var ws := StoredWarnings(env, st, file, item);
    assert ws == ev + checks + cyc;
    assert forall e :: e in failed <==> e in rec.evals && env.parse(e).None?;
    CheckDepsWarnings(env, st.res, Listed(st.depends), at, DepList(env, rec));
    WarningPartsKinds(at, failed, ev, checks, cyc);
    EvalWarningsNotAppended(at, failed);
    AppendedParts(ev, checks, cyc, at);
  }

  /** Only the dependency checks between the other two parts append. */
  lemma AppendedParts(ev: seq<Warning>, checks: seq<Warning>, cyc: seq<Warning>, at: Ctx)
    requires Appended(ev) == [] && (cyc == [] || cyc == [Cyclic(at)])
    ensures Appended(ev + checks + cyc) == Appended(checks)
  {
    AppendedConcat(ev, checks);
    AppendedConcat(ev + checks, cyc);
    assert Appended(cyc) == [] by {
      if |cyc| == 1 { assert cyc[..0] == []; }
    }
  }

  /** Which part of a stored record's warnings holds which kind. */
  lemma WarningPartsKinds(at: Ctx, failed: seq<string>, ev: seq<Warning>, checks: seq<Warning>, cyc: seq<Warning>)
    requires ev == EvalWarnings(at, failed)
    requires forall w :: w in checks ==> w.UnsatisfiedModule? || w.Undefined?
    requires cyc == [] || cyc == [Cyclic(at)]
    ensures forall e :: EvalFailed(at, e) in ev + checks + cyc <==> e in failed
    ensures forall x :: Undefined(at, x) in ev + checks + cyc <==> Undefined(at, x) in checks
  {
    forall e ensures EvalFailed(at, e) in ev + checks + cyc <==> EvalFailed(at, e) in ev
    {
      if EvalFailed(at, e) in checks { assert false; }
    }
  }

  lemma StoredWarningsCycle(env: Env, st: State, file: string, item: (Loc, Record))
    requires Stored(item.1)
    ensures var res := st.res[KeyOf(env, item.1) := Tracked(file, item.1, DepsOf(env, item.1), item.0, 0)];
            Cyclic(CtxOf(file, item.1)) in StoredWarnings(env, st, file, item) <==>
              Reachable(DepGraph(res), KeyOf(env, item.1), KeyOf(env, item.1))
  {
    var rec := item.1;
    var at := CtxOf(file, rec);
    var res := st.res[KeyOf(env, rec) := Tracked(file, rec, DepsOf(env, rec), item.0, 0)];
    var ev := EvalWarnings(at, Unparsed(env.parse, rec.evals));
    var checks := RecordChecks(env, st, file, rec).1;
    var cyc := CycleWarning(res, at, KeyOf(env, rec));
    assert StoredWarnings(env, st, file, item) == ev + checks + cyc;
    CheckDepsWarnings(env, st.res, Listed(st.depends), at, DepList(env, rec));
    assert Cyclic(at) !in checks;
    CycleThroughIsCycle(DepGraph(res), KeyOf(env, rec));
  }

  lemma EvalWarningsNotAppended(at: Ctx, failed: seq<string>)
    ensures Appended(EvalWarnings(at, failed)) == []
    decreases |failed|
  {
    if |failed| > 0 {
      var ws := EvalWarnings(at, failed);
      assert ws[..|ws| - 1] == EvalWarnings(at, failed[..|failed| - 1]);
      EvalWarningsNotAppended(at, failed[..|failed| - 1]);
    }
  }

  // ---------------------------------------------------------------------
  // Loading one file

  /** The ids a list of children declares. */
  function KeysOf(env: Env, items: seq<(Loc, Record)>): set<XmlId>
    decreases |items|
  {
    if |items| == 0 then {}
    else
      var last := items[|items| - 1].1;
      KeysOf(env, items[..|items| - 1]) + (if Stored(last) then {KeyOf(env, last)} else {})
  }

  /** The union of the dependencies of the stored children. */
  function DepsUnion(env: Env, items: seq<(Loc, Record)>): set<XmlId>
    decreases |items|
  {
    if |items| == 0 then {}
    else
      var last := items[|items| - 1].1;
      DepsUnion(env, items[..|items| - 1]) + (if Stored(last) then DepsOf(env, last) else {})
  }

  /** An id is declared by a list of children iff one of its stored
      children carries it. */
  lemma {:induction false} KeysOfMember(env: Env, items: seq<(Loc, Record)>, k: XmlId)
    ensures k in KeysOf(env, items) <==> exists j :: 0 <= j < |items| && Stored(items[j].1) && KeyOf(env, items[j].1) == k
    decreases |items|
  {
    if |items| > 0 {
      var init := items[..|items| - 1];
      KeysOfMember(env, init, k);
      assert forall j :: 0 <= j < |init| ==> init[j] == items[j];
    }
  }

  /** The children in order, each through `LoadRecord`; the first that
      raises stops the loader. */
  function LoadItems(env: Env, st: State, file: string, items: seq<(Loc, Record)>): (r: Result<State>)
    ensures r.Ok? ==> r.value.files == st.files && r.value.depends.Some? == st.depends.Some?
    ensures r.Fail? ==> LoadError(st.depends.Some?, r.error)
    decreases |items|
  {
    if |items| == 0 then Ok(st)
    else
      match LoadItems(env, st, file, items[..|items| - 1])
      case Fail(err) => Fail(err)
      case Ok(mid) => LoadRecord(env, mid, file, items[|items| - 1])
  }

  /** Loading children fails exactly when one of them raises, and then with
      the error of the first such child. */
  lemma {:induction false} LoadItemsFails(env: Env, st: State, file: string, items: seq<(Loc, Record)>)
    ensures var r := LoadItems(env, st, file, items);
            var listed := st.depends.Some?;
            && (r.Fail? <==> exists j :: 0 <= j < |items| && Aborting(env, listed, items[j].1))
            && (r.Fail? ==> exists j :: 0 <= j < |items| && Aborting(env, listed, items[j].1) &&
                              RecordError(env, listed, items[j].1) == Some(r.error) &&
                              forall i :: 0 <= i < j ==> !Aborting(env, listed, items[i].1))
    decreases |items|
  {
    if |items| > 0 {
      var init := items[..|items| - 1];
      var n := |items| - 1;
      var listed := st.depends.Some?;
      assert forall j :: 0 <= j < |init| ==> init[j] == items[j];
      LoadItemsFails(env, st, file, init);
      match LoadItems(env, st, file, init)
      case Fail(err) =>
        assert LoadItems(env, st, file, items) == Fail(err);
      case Ok(mid) =>
        assert LoadItems(env, st, file, items) == LoadRecord(env, mid, file, items[n]);
        if !Aborting(env, listed, items[n].1) {
          forall j | 0 <= j < |items| ensures !Aborting(env, listed, items[j].1)
          {
            if j < n {
              assert init[j] == items[j];
            }
          }
        }
    }
  }

  /** Loading children stores exactly the ids they declare and collects
      the union of their dependencies. */
  lemma {:induction false} LoadItemsKeys(env: Env, st: State, file: string, items: seq<(Loc, Record)>)
    ensures var r := LoadItems(env, st, file, items);
            r.Ok? ==>
              && r.value.res.Keys == st.res.Keys + KeysOf(env, items)
              && r.value.fileDeps == st.fileDeps + DepsUnion(env, items)
    decreases |items|
  {
    if |items| > 0 {
      var init := items[..|items| - 1];
      var last := items[|items| - 1];
      LoadItemsKeys(env, st, file, init);
      match LoadItems(env, st, file, init)
      case Fail(_) =>
      case Ok(mid) =>
        var r := LoadRecord(env, mid, file, last);
        assert LoadItems(env, st, file, items) == r;
        if r.Ok? {
          var key: set<XmlId> := if Stored(last.1) then {KeyOf(env, last.1)} else {};
          var deps: set<XmlId> := if Stored(last.1) then DepsOf(env, last.1) else {};
          assert KeysOf(env, items) == KeysOf(env, init) + key;
          assert DepsUnion(env, items) == DepsUnion(env, init) + deps;
          UnionAssoc(st.res.Keys, KeysOf(env, init), key);
          UnionAssoc(st.fileDeps, DepsUnion(env, init), deps);
        }
    }
  }

  lemma UnionAssoc<T>(a: set<T>, b: set<T>, c: set<T>)
    ensures a + b + c == a + (b + c)
  {
  }

  /** Loading children only appends to `depends`, keeps it free of
      duplicates and complete for the stored dependencies. */
  lemma {:induction false} LoadItemsDepends(env: Env, st: State, file: string, items: seq<(Loc, Record)>)
    ensures var r := LoadItems(env, st, file, items);
            r.Ok? ==>
              && Grows(st.depends, r.value.depends)
              && (DependsDeclared(env, st.res, Listed(st.depends)) ==>
                    DependsDeclared(env, r.value.res, Listed(r.value.depends)))
    decreases |items|
  {
    if |items| > 0 {
      var init := items[..|items| - 1];
      LoadItemsDepends(env, st, file, init);
      match LoadItems(env, st, file, init)
      case Fail(_) =>
      case Ok(mid) =>
        var r := LoadRecord(env, mid, file, items[|items| - 1]);
        assert LoadItems(env, st, file, items) == r;
        LoadRecordDepends(env, mid, file, items[|items| - 1]);
        if r.Ok? {
          GrowsTrans(st.depends, mid.depends, r.value.depends);
        }
    }
  }

  /** Loading children only appends warnings, all about records of `file`. */
  lemma {:induction false} LoadItemsWarnings(env: Env, st: State, file: string, items: seq<(Loc, Record)>)
    ensures var r := LoadItems(env, st, file, items);
            r.Ok? ==>
              && |st.warnings| <= |r.value.warnings| && r.value.warnings[..|st.warnings|] == st.warnings
              && (forall w :: w in r.value.warnings[|st.warnings|..] ==> RecordLevel(w, file))
    decreases |items|
  {
    if |items| > 0 {
      var init := items[..|items| - 1];
      LoadItemsWarnings(env, st, file, init);
      match LoadItems(env, st, file, init)
      case Fail(_) =>
      case Ok(mid) =>
        var r := LoadRecord(env, mid, file, items[|items| - 1]);
        assert LoadItems(env, st, file, items) == r;
        LoadRecordWarnings(env, mid, file, items[|items| - 1]);
        if r.Ok? {
          PrefixTrans(st.warnings, mid.warnings, r.value.warnings);
          TailsRecordLevel(st.warnings, mid.warnings, r.value.warnings, file);
        }
    }
  }

  lemma PrefixTrans<T>(a: seq<T>, b: seq<T>, c: seq<T>)
    requires |a| <= |b| && b[..|a|] == a
    requires |b| <= |c| && c[..|b|] == b
    ensures |a| <= |c| && c[..|a|] == a
  {
    assert c[..|a|] == c[..|b|][..|a|];
  }

  lemma TailsRecordLevel(a: seq<Warning>, b: seq<Warning>, c: seq<Warning>, file: string)
    requires |a| <= |b| && |b| <= |c| && c[..|b|] == b
    requires forall w :: w in b[|a|..] ==> RecordLevel(w, file)
    requires forall w :: w in c[|b|..] ==> RecordLevel(w, file)
    ensures forall w :: w in c[|a|..] ==> RecordLevel(w, file)
  {
    assert c[|a|..] == b[|a|..] + c[|b|..];
  }

  /** Every entry of `res` is the one of `before` or describes a record of
      `file`. */
  ghost predicate FromFile(env: Env, before: map<XmlId, Tracked>, file: string, res: map<XmlId, Tracked>)
  {
    forall k :: k in res ==> (k in before && res[k] == before[k]) || (res[k].filename == file && Placed(env, k, res[k]))
  }

  lemma FromFileStore(env: Env, before: map<XmlId, Tracked>, file: string, res: map<XmlId, Tracked>,
                      k: XmlId, t: Tracked)
    requires FromFile(env, before, file, res)
    requires t.filename == file && Placed(env, k, t)
    ensures FromFile(env, before, file, res[k := t])
  {
  }

  /** Children that are where they say they are in `file` give stored
      entries that describe them. */
  lemma {:induction false} LoadItemsPlaced(env: Env, st: State, file: string, items: seq<(Loc, Record)>)
    requires file in env.fs
    requires forall j :: 0 <= j < |items| ==>
               ValidLoc(env.fs[file], items[j].0) && At(env.fs[file], items[j].0) == items[j].1
    ensures var r := LoadItems(env, st, file, items);
            r.Ok? ==> FromFile(env, st.res, file, r.value.res)
    decreases |items|
  {
    if |items| > 0 {
      var init := items[..|items| - 1];
      var item := items[|items| - 1];
      assert forall j :: 0 <= j < |init| ==> init[j] == items[j];
      LoadItemsPlaced(env, st, file, init);
      match LoadItems(env, st, file, init)
      case Fail(_) =>
      case Ok(mid) =>
        var r := LoadRecord(env, mid, file, item);
        assert LoadItems(env, st, file, items) == r;
        if r.Ok? && Stored(item.1) {
          var t := Tracked(file, item.1, DepsOf(env, item.1), item.0, 0);
          assert Placed(env, KeyOf(env, item.1), t);
          assert r.value.res == mid.res[KeyOf(env, item.1) := t];
          FromFileStore(env, st.res, file, mid.res, KeyOf(env, item.1), t);
        }
    }
  }

  /** A file the loader reads: it exists and is not a CSV file. */
  predicate Loadable(env: Env, f: string)
  {
    f in env.fs && !EndsWith(f, ".csv")
  }

  /** A loadable file one of whose records raises. */
  predicate FileAborts(env: Env, listed: bool, f: string)
  {
    Loadable(env, f) &&
    exists j :: 0 <= j < |DataRecords(env.fs[f])| && Aborting(env, listed, DataRecords(env.fs[f])[j].1)
  }

  /** The ids a file declares. */
  function DeclaredIn(env: Env, f: string): set<XmlId>
    requires f in env.fs
  {
    KeysOf(env, DataRecords(env.fs[f]))
  }

  /** The union of the dependencies of a file's stored records. */
  function FileDepsOf(env: Env, f: string): set<XmlId>
    requires f in env.fs
  {
    DepsUnion(env, DataRecords(env.fs[f]))
  }

  /** One manifest entry: a missing or CSV file is reported and skipped;
      otherwise its records are loaded, and unless one of them raises, the
      file is kept with the union of their dependencies. */
  function LoadFile(env: Env, st: State, file: string): (r: Result<State>)
    ensures r.Fail? <==> FileAborts(env, st.depends.Some?, file)
    ensures r.Fail? ==> LoadError(st.depends.Some?, r.error)
    ensures r.Ok? ==> r.value.depends.Some? == st.depends.Some?
    ensures r.Ok? ==> r.value.res.Keys == st.res.Keys + (if Loadable(env, file) then DeclaredIn(env, file) else {})
    ensures r.Ok? ==> r.value.files == if Loadable(env, file)
                                       then st.files[file := TrackedFile(env.fs[file], FileDepsOf(env, file))]
                                       else st.files
    ensures file !in env.fs ==> r == Ok(st.(warnings := st.warnings + [MissingFile(file)]))
    ensures file in env.fs && EndsWith(file, ".csv") ==> r == Ok(st.(warnings := st.warnings + [CsvSkipped(file)]))
  {
    if file !in env.fs then Ok(st.(warnings := st.warnings + [MissingFile(file)]))
    else if EndsWith(file, ".csv") then Ok(st.(warnings := st.warnings + [CsvSkipped(file)]))
    else
      var doc := env.fs[file];
      var st0 := st.(fileDeps := {});
      LoadItemsKeys(env, st0, file, DataRecords(doc));
      LoadItemsFails(env, st0, file, DataRecords(doc));
      match LoadItems(env, st0, file, DataRecords(doc))
      case Fail(err) => Fail(err)
      case Ok(st1) =>
        assert st1.fileDeps == FileDepsOf(env, file);
        Ok(st1.(files := st1.files[file := TrackedFile(doc, st1.fileDeps)]))
  }

  /** What the loader has built is consistent with the files: every kept
      file with its content and dependency union, every stored id with the
      record that declares it, at its position in a kept file, and every
      foreign module of a stored dependency in `depends`. */
  ghost predicate Consistent(env: Env, st: State)
  {
    && (forall f :: f in st.files ==> Loadable(env, f) && st.files[f] == TrackedFile(env.fs[f], FileDepsOf(env, f)))
    && (forall k :: k in st.res ==> Placed(env, k, st.res[k]) && st.res[k].filename in st.files)
    && DependsDeclared(env, st.res, Listed(st.depends))
  }

  lemma LoadFileConsistent(env: Env, st: State, file: string)
    requires Consistent(env, st)
    ensures var r := LoadFile(env, st, file);
            r.Ok? ==> Consistent(env, r.value)
  {
    if Loadable(env, file) {
      var doc := env.fs[file];
      var items := DataRecords(doc);
      var st0 := st.(fileDeps := {});
      LoadItemsPlaced(env, st0, file, items);
      LoadItemsDepends(env, st0, file, items);
    }
  }

  /** The warnings of one manifest entry: a missing-file or CSV warning
      exactly when the entry is missing or a CSV file, everything else
      about its records. */
  lemma LoadFileWarnings(env: Env, st: State, file: string)
    ensures var r := LoadFile(env, st, file);
            r.Ok? ==>
              && |st.warnings| <= |r.value.warnings| && r.value.warnings[..|st.warnings|] == st.warnings
              && (forall f :: MissingFile(f) in r.value.warnings[|st.warnings|..] <==> f == file && file !in env.fs)
              && (forall f :: CsvSkipped(f) in r.value.warnings[|st.warnings|..] <==>
                    f == file && file in env.fs && EndsWith(file, ".csv"))
  {
    var r := LoadFile(env, st, file);
    if Loadable(env, file) {
      LoadItemsWarnings(env, st.(fileDeps := {}), file, DataRecords(env.fs[file]));
    } else {
      assert r.value.warnings[|st.warnings|..] == r.value.warnings[|st.warnings|..][..1];
    }
  }

  lemma LoadFileDepends(env: Env, st: State, file: string)
    ensures var r := LoadFile(env, st, file);
            r.Ok? ==> Grows(st.depends, r.value.depends)
  {
    if Loadable(env, file) {
      LoadItemsDepends(env, st.(fileDeps := {}), file, DataRecords(env.fs[file]));
    }
  }

  // ---------------------------------------------------------------------
  // Loading the manifest's data files

  /** Ids declared by the loadable files of a manifest list. */
  function DeclaredBy(env: Env, data: seq<string>): set<XmlId>
  {
    set j, k | 0 <= j < |data| && Loadable(env, data[j]) && k in DeclaredIn(env, data[j]) :: k
  }

  function LoadFiles(env: Env, st: State, data: seq<string>): (r: Result<State>)
    ensures r.Fail? <==> exists f :: f in data && FileAborts(env, st.depends.Some?, f)
    ensures r.Fail? ==> LoadError(st.depends.Some?, r.error)
    ensures r.Ok? ==> r.value.depends.Some? == st.depends.Some?
    ensures r.Ok? ==> r.value.res.Keys == st.res.Keys + DeclaredBy(env, data)
    ensures r.Ok? ==> forall f :: f in r.value.files <==> f in st.files || (f in data && Loadable(env, f))
    decreases |data|
  {
    if |data| == 0 then Ok(st)
    else
      var init := data[..|data| - 1];
      var last := data[|data| - 1];
      assert forall j :: 0 <= j < |init| ==> init[j] == data[j];
      assert forall f :: f in data <==> f in init || f == last;
      assert DeclaredBy(env, data) ==
             DeclaredBy(env, init) + (if Loadable(env, last) then DeclaredIn(env, last) else {}) by {
        if Loadable(env, last) {
          forall k | k in DeclaredIn(env, last) ensures k in DeclaredBy(env, data)
          {
            assert Loadable(env, data[|data| - 1]);
          }
        }
      }
      match LoadFiles(env, st, init)
      case Fail(err) => Fail(err)
      case Ok(mid) => LoadFile(env, mid, last)
  }

  lemma {:induction false} LoadFilesConsistent(env: Env, st: State, data: seq<string>)
    requires Consistent(env, st)
    ensures var r := LoadFiles(env, st, data);
            r.Ok? ==> Consistent(env, r.value)
    decreases |data|
  {
    if |data| > 0 {
      LoadFilesConsistent(env, st, data[..|data| - 1]);
      match LoadFiles(env, st, data[..|data| - 1])
      case Fail(_) =>
      case Ok(mid) => LoadFileConsistent(env, mid, data[|data| - 1]);
    }
  }

  /** Over the whole manifest, a file warning is issued for each missing
      or CSV entry and for nothing else. */
  lemma {:induction false} LoadFilesWarnings(env: Env, st: State, data: seq<string>)
    ensures var r := LoadFiles(env, st, data);
            r.Ok? ==>
              && |st.warnings| <= |r.value.warnings| && r.value.warnings[..|st.warnings|] == st.warnings
              && (forall f :: MissingFile(f) in r.value.warnings[|st.warnings|..] <==> f in data && f !in env.fs)
              && (forall f :: CsvSkipped(f) in r.value.warnings[|st.warnings|..] <==>
                    f in data && f in env.fs && EndsWith(f, ".csv"))
    decreases |data|
  {
    if |data| > 0 {
      var init := data[..|data| - 1];
      var last := data[|data| - 1];
      assert forall f :: f in data <==> f in init || f == last;
      LoadFilesWarnings(env, st, init);
      match LoadFiles(env, st, init)
      case Fail(_) =>
      case Ok(mid) =>
        LoadFileWarnings(env, mid, last);
        var r := LoadFile(env, mid, last);
        if r.Ok? {
          PrefixTrans(st.warnings, mid.warnings, r.value.warnings);
          TailSplit(st.warnings, mid.warnings, r.value.warnings);
        }
    }
  }

  lemma TailSplit<T>(a: seq<T>, b: seq<T>, c: seq<T>)
    requires |a| <= |b| && |b| <= |c| && c[..|b|] == b
    ensures c[|a|..] == b[|a|..] + c[|b|..]
  {
  }

  /** Over the whole manifest, `depends` only grows, without duplicates. */
  lemma {:induction false} LoadFilesDepends(env: Env, st: State, data: seq<string>)
    ensures var r := LoadFiles(env, st, data);
            r.Ok? ==> Grows(st.depends, r.value.depends)
    decreases |data|
  {
    if |data| > 0 {
      LoadFilesDepends(env, st, data[..|data| - 1]);
      match LoadFiles(env, st, data[..|data| - 1])
      case Fail(_) =>
      case Ok(mid) =>
        LoadFileDepends(env, mid, data[|data| - 1]);
        var r := LoadFile(env, mid, data[|data| - 1]);
        if r.Ok? {
          GrowsTrans(st.depends, mid.depends, r.value.depends);
        }
    }
  }

  /** `tracked_xml_ids`: load every data file of the manifest, in order,
      starting from nothing. A manifest without `data` lists no file; one
      without `depends` loads only while no foreign dependency shows up. */
  function TrackedXmlIds(env: Env, data: Option<seq<string>>, depends: Option<seq<string>>): (r: Result<State>)
    ensures r.Fail? <==> exists f :: f in Listed(data) && FileAborts(env, depends.Some?, f)
    ensures r.Fail? ==> LoadError(depends.Some?, r.error)
    ensures r.Ok? ==> r.value.res.Keys == DeclaredBy(env, Listed(data))
    ensures r.Ok? ==> forall f :: f in r.value.files <==> f in Listed(data) && Loadable(env, f)
  {
    LoadFiles(env, State(map[], map[], depends, [], {}), Listed(data))
  }

  /** The result of loading is consistent with the files, and the foreign
      modules of all stored dependencies end up in `depends`. */
  lemma TrackedXmlIdsConsistent(env: Env, data: Option<seq<string>>, depends: Option<seq<string>>)
    ensures var r := TrackedXmlIds(env, data, depends);
            r.Ok? ==> Consistent(env, r.value)
  {
    LoadFilesConsistent(env, State(map[], map[], depends, [], {}), Listed(data));
  }

  /** The file warnings of loading and the growth of `depends`. */
  lemma TrackedXmlIdsWarnings(env: Env, data: Option<seq<string>>, depends: Option<seq<string>>)
    ensures var r := TrackedXmlIds(env, data, depends);
            r.Ok? ==>
              && (forall f :: MissingFile(f) in r.value.warnings <==> f in Listed(data) && f !in env.fs)
              && (forall f :: CsvSkipped(f) in r.value.warnings <==>
                    f in Listed(data) && f in env.fs && EndsWith(f, ".csv"))
              && Grows(depends, r.value.depends)
  {
    var st := State(map[], map[], depends, [], {});
    LoadFilesWarnings(env, st, Listed(data));
    LoadFilesDepends(env, st, Listed(data));
    var r := TrackedXmlIds(env, data, depends);
    if r.Ok? {
      assert r.value.warnings[|st.warnings|..] == r.value.warnings;
    }
  }
}
