/** Extraction of `ref('…')` calls from the expression strings of `eval`
    attributes. The expression parser is an oracle producing a syntax tree;
    the walk over that tree is the breadth-first queue of the original
    helper. Only string literals are accepted as the argument of `ref`: the
    model never evaluates an expression. */
module RefExtract {

  import opened Base

  /** The syntax-tree nodes the walk distinguishes; every other node kind is
      `Other`, carrying its child nodes in the parser's field order. */
  datatype Expr =
    | Name(id: string)
    | Str(s: string)
    | Call(func: Expr, args: seq<Expr>, keywords: seq<Expr>)
    | Tuple(elts: seq<Expr>)
    | Other(kind: string, children: seq<Expr>)

  /** The direct child nodes, in the order the parser's field iteration
      yields them. */
  function Children(e: Expr): seq<Expr>
  {
    match e
    case Name(_) => []
    case Str(_) => []
    case Call(f, a, k) => [f] + a + k
    case Tuple(xs) => xs
    case Other(_, xs) => xs
  }

  function Size(e: Expr): (r: nat)
    ensures r >= 1
    decreases e, 1
  {
    match e
    case Name(_) => 1
    case Str(_) => 1
    case Call(f, a, k) => 1 + Size(f) + SizeSeq(a) + SizeSeq(k)
    case Tuple(xs) => 1 + SizeSeq(xs)
    case Other(_, xs) => 1 + SizeSeq(xs)
  }

  function SizeSeq(xs: seq<Expr>): nat
    decreases xs, 0
  {
    if |xs| == 0 then 0 else Size(xs[0]) + SizeSeq(xs[1..])
  }

  lemma {:induction false} SizeSeqAppend(a: seq<Expr>, b: seq<Expr>)
    ensures SizeSeq(a + b) == SizeSeq(a) + SizeSeq(b)
    decreases |a|
  {
    if |a| > 0 {
      assert (a + b)[1..] == a[1..] + b;
      SizeSeqAppend(a[1..], b);
    } else {
      assert a + b == b;
    }
  }

  lemma ChildrenSmaller(e: Expr)
    ensures SizeSeq(Children(e)) < Size(e)
  {
    match e
    case Call(f, a, k) =>
      SizeSeqAppend([f], a);
      SizeSeqAppend([f] + a, k);
      assert [f][1..] == [];
    case _ =>
  }

  /** A call whose callee is the bare name `ref`. */
  predicate IsRefCall(e: Expr)
  {
    e.Call? && e.func == Name("ref")
  }

  /** The value of the first argument of a `ref` call: only a string literal
      evaluates; a missing argument is an `IndexError`. */
  function RefArg(e: Expr): (r: Result<string>)
    requires IsRefCall(e)
    ensures r.Ok? <==> |e.args| > 0 && e.args[0].Str?
  {
    if |e.args| == 0 then Fail(IndexError("ref() without argument"))
    else if e.args[0].Str? then Ok(e.args[0].s)
    else Fail(EvalError("argument of ref() is not a string literal"))
  }

  /** The queue walk: a matched `ref` call contributes its argument and is not
      entered; any other node is replaced by its children at the back of the
      queue. The first failing `ref` argument aborts the walk. */
  function Walk(queue: seq<Expr>): (r: Result<seq<string>>)
    ensures r.Fail? ==> r.error.IndexError? || r.error.EvalError?
    decreases SizeSeq(queue)
  {
    if |queue| == 0 then Ok([])
    else
      var e := queue[0];
      if IsRefCall(e) then
        match RefArg(e)
        case Fail(err) => Fail(err)
        case Ok(s) =>
          match Walk(queue[1..])
          case Fail(err) => Fail(err)
          case Ok(rest) => Ok([s] + rest)
      else
        SizeSeqAppend(queue[1..], Children(e));
        ChildrenSmaller(e);
        Walk(queue[1..] + Children(e))
  }

  /** `get_refs_in_eval`: a syntax error escapes to the caller, and is the
      only error a source that does not parse gives. */
  function GetRefsInEval(parse: string -> Option<Expr>, source: string): (r: Result<seq<string>>)
    ensures parse(source).None? ==> r == Fail(SyntaxError(source))
    ensures r.Fail? && r.error.SyntaxError? <==> parse(source).None?
  {
    match parse(source)
    case None => Fail(SyntaxError(source))
    case Some(tree) => Walk([tree])
  }

  // ---------------------------------------------------------------------
  // Reference definition: the refs of a tree, structurally.

  /** No `ref` call reachable without passing through a matched one has a
      bad argument. */
  predicate Extractable(e: Expr)
    decreases e, 1
  {
    match e
    case Call(f, a, k) =>
      if IsRefCall(e) then |a| > 0 && a[0].Str?
      else Extractable(f) && ExtractableSeq(a) && ExtractableSeq(k)
    case Tuple(xs) => ExtractableSeq(xs)
    case Other(_, xs) => ExtractableSeq(xs)
    case _ => true
  }

  predicate ExtractableSeq(xs: seq<Expr>)
    decreases xs, 0
  {
    |xs| == 0 || (Extractable(xs[0]) && ExtractableSeq(xs[1..]))
  }

  /** The outermost `ref` arguments of a tree, as a multiset. */
  function TopRefs(e: Expr): multiset<string>
    decreases e, 1
  {
    match e
    case Call(f, a, k) =>
      if IsRefCall(e) then (if |a| > 0 && a[0].Str? then multiset{a[0].s} else multiset{})
      else TopRefs(f) + TopRefsSeq(a) + TopRefsSeq(k)
    case Tuple(xs) => TopRefsSeq(xs)
    case Other(_, xs) => TopRefsSeq(xs)
    case _ => multiset{}
  }

  function TopRefsSeq(xs: seq<Expr>): multiset<string>
    decreases xs, 0
  {
    if |xs| == 0 then multiset{} else TopRefs(xs[0]) + TopRefsSeq(xs[1..])
  }

  lemma {:induction false} SeqAppend(a: seq<Expr>, b: seq<Expr>)
    ensures TopRefsSeq(a + b) == TopRefsSeq(a) + TopRefsSeq(b)
    ensures ExtractableSeq(a + b) <==> ExtractableSeq(a) && ExtractableSeq(b)
    decreases |a|
  {
    if |a| > 0 {
      assert (a + b)[1..] == a[1..] + b;
      assert (a + b)[0] == a[0];
      SeqAppend(a[1..], b);
    } else {
      assert a + b == b;
    }
  }

  /** Outside a matched `ref` call, the structural definitions are those of
      the child list. */
  lemma {:induction false} ChildrenRefs(e: Expr)
    requires !IsRefCall(e)
    ensures TopRefs(e) == TopRefsSeq(Children(e))
    ensures Extractable(e) <==> ExtractableSeq(Children(e))
  {
    match e
    case Call(f, a, k) =>
      SeqAppend([f], a);
      SeqAppend([f] + a, k);
      assert [f][1..] == [];
    case Tuple(xs) =>
    case Other(_, xs) =>
    case Name(_) =>
    case Str(_) =>
  }

  /** The walk succeeds exactly on extractable queues, and then finds every
      outermost `ref` argument, each as often as it occurs. */
  lemma {:induction false} WalkFindsTopRefs(queue: seq<Expr>)
    ensures Walk(queue).Ok? <==> ExtractableSeq(queue)
    ensures Walk(queue).Ok? ==> multiset(Walk(queue).value) == TopRefsSeq(queue)
    decreases SizeSeq(queue)
  {
    if |queue| > 0 {
      var e := queue[0];
      if IsRefCall(e) {
        WalkFindsTopRefs(queue[1..]);
        if |e.args| > 0 && e.args[0].Str? {
          match Walk(queue[1..])
          case Fail(_) =>
          case Ok(rest) =>
            assert multiset([e.args[0].s] + rest) == multiset{e.args[0].s} + multiset(rest);
        }
      } else {
        var next := queue[1..] + Children(e);
        SizeSeqAppend(queue[1..], Children(e));
        ChildrenSmaller(e);
        WalkFindsTopRefs(next);
        SeqAppend(queue[1..], Children(e));
        ChildrenRefs(e);
      }
    }
  }

  /** Entry point form of the previous lemma. */
  lemma GetRefsInEvalSound(parse: string -> Option<Expr>, source: string)
    requires parse(source).Some?
    ensures GetRefsInEval(parse, source).Ok? <==> Extractable(parse(source).value)
    ensures GetRefsInEval(parse, source).Ok? ==>
              multiset(GetRefsInEval(parse, source).value) == TopRefs(parse(source).value)
  {
    var t := parse(source).value;
    WalkFindsTopRefs([t]);
    assert [t][1..] == [];
  }

  /** A matched `ref` call is a leaf of the walk: refs nested in its other
      arguments are not collected. */
  lemma RefCallNotEntered(s: string, more: seq<Expr>, kw: seq<Expr>)
    ensures Walk([Call(Name("ref"), [Str(s)] + more, kw)]) == Ok([s])
  {
    var e := Call(Name("ref"), [Str(s)] + more, kw);
    var q := [e];
    assert q[0] == e && q[1..] == [];
    assert RefArg(e) == Ok(s);
    assert Walk([]) == Ok([]);
    assert [s] + [] == [s];
  }

  function Ref(s: string): Expr { Call(Name("ref"), [Str(s)], []) }

  /** `(ref('bar'), '=', ref('foo'))` yields `['bar', 'foo']`: breadth-first,
      left to right. The parser wraps an expression in a module and an
      expression statement. */
  lemma WalkExampleTuple()
    ensures Walk([Other("Module", [Other("Expr", [Tuple([Ref("bar"), Str("="), Ref("foo")])])])])
            == Ok(["bar", "foo"])
  {
    var t := Tuple([Ref("bar"), Str("="), Ref("foo")]);
    var q0 := [Other("Module", [Other("Expr", [t])])];
    assert Walk(q0) == Walk([Other("Expr", [t])]) by { assert q0[1..] + [Other("Expr", [t])] == [Other("Expr", [t])]; }
    assert Walk([Other("Expr", [t])]) == Walk([t]) by { assert [Other("Expr", [t])][1..] + [t] == [t]; }
    var q3 := [Ref("bar"), Str("="), Ref("foo")];
    assert Walk([t]) == Walk(q3) by { assert [t][1..] + q3 == q3; }
    assert q3[1..] == [Str("="), Ref("foo")];
    assert Walk([Str("="), Ref("foo")]) == Walk([Ref("foo")]) by { assert [Str("="), Ref("foo")][1..] + [] == [Ref("foo")]; }
    assert Walk([Ref("foo")]) == Ok(["foo"]) by { RefCallNotEntered("foo", [], []); }
    assert Walk(q3) == Ok(["bar", "foo"]) by {
      assert q3[0] == Ref("bar") && IsRefCall(q3[0]);
      assert RefArg(Ref("bar")) == Ok("bar");
      assert Walk(q3[1..]) == Ok(["foo"]);
      assert ["bar"] + ["foo"] == ["bar", "foo"];
    }
  }

  /** A non-literal argument of `ref` is an error, not a silent skip. */
  lemma WalkNonLiteralFails(x: string)
    ensures Walk([Call(Name("ref"), [Name(x)], [])]).Fail?
  {
  }

  /** The queue is served in order: `ref` calls at its front give their
      arguments first, in queue order, before anything the rest yields. */
  lemma {:induction false} WalkRefsFirst(ss: seq<string>, rest: seq<Expr>)
    ensures Walk(Refs(ss) + rest) ==
            match Walk(rest) case Ok(v) => Ok(ss + v) case Fail(err) => Fail(err)
    decreases |ss|
  {
    if |ss| > 0 {
      var q := Refs(ss) + rest;
      assert q[0] == Ref(ss[0]) && IsRefCall(q[0]);
      assert q[1..] == Refs(ss[1..]) + rest;
      WalkRefsFirst(ss[1..], rest);
      match Walk(rest)
      case Ok(v) => assert [ss[0]] + (ss[1..] + v) == ss + v;
      case Fail(_) =>
    } else {
      assert Refs(ss) + rest == rest;
      match Walk(rest)
      case Ok(v) => assert ss + v == v;
      case Fail(_) =>
    }
  }

  /** `ref(s)` for each string, in order. */
  function Refs(ss: seq<string>): (r: seq<Expr>)
    ensures |r| == |ss| && forall i :: 0 <= i < |ss| ==> r[i] == Ref(ss[i])
  {
    seq(|ss|, i requires 0 <= i < |ss| => Ref(ss[i]))
  }
}
