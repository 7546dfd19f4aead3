/** Python's `template % mapping` restricted to `%(key)s` placeholders and the
    `%%` escape, the only forms the labels and dispatch templates use. */
module PercentFormat {

  import opened Base
  import opened Text
  import opened Values

  function Format(t: string, d: map<string, Value>): (r: Result<string>)
    decreases |t|
  {
    if |t| == 0 then Ok("")
    else if t[0] != '%' then
      match Format(t[1..], d)
      case Fail(e) => Fail(e)
      case Ok(rest) => Ok([t[0]] + rest)
    else if |t| >= 2 && t[1] == '%' then
      match Format(t[2..], d)
      case Fail(e) => Fail(e)
      case Ok(rest) => Ok("%" + rest)
    else if |t| >= 2 && t[1] == '(' then
      match IndexOf(t[2..], ')')
      case None => Fail(ValueError("incomplete format key"))
      case Some(k) =>
        var key := t[2..2 + k];
        if 3 + k < |t| && t[3 + k] == 's' then
          if key in d then
            match Format(t[4 + k..], d)
            case Fail(e) => Fail(e)
            case Ok(rest) => Ok(Show(d[key]) + rest)
          else Fail(KeyError(key))
        else Fail(ValueError("unsupported format character"))
    else Fail(ValueError("incomplete format"))
  }

  /** A literal prefix without `%` passes through unchanged, and errors
      after it are the errors of the rest. */
  lemma {:induction false} FormatLiteralPrefix(prefix: string, t: string, d: map<string, Value>)
    requires '%' !in prefix
    ensures Format(prefix + t, d) == Prepend(prefix, Format(t, d))
    decreases |prefix|
  {
    if |prefix| > 0 {
      var s := prefix + t;
      assert s[0] == prefix[0] && prefix[0] in prefix;
      assert s[1..] == prefix[1..] + t;
      assert forall c :: c in prefix[1..] ==> c in prefix;
      FormatLiteralPrefix(prefix[1..], t, d);
      assert [prefix[0]] + prefix[1..] == prefix;
      match Format(t, d)
      case Fail(e) =>
      case Ok(rest) => assert prefix + rest == [prefix[0]] + (prefix[1..] + rest);
    } else {
      assert prefix + t == t;
      match Format(t, d)
      case Fail(e) =>
      case Ok(rest) => assert prefix + rest == rest;
    }
  }

  function Prepend(prefix: string, r: Result<string>): Result<string>
  {
    match r
    case Fail(e) => Fail(e)
    case Ok(rest) => Ok(prefix + rest)
  }

  /** A template without `%` is its own rendering, whatever the mapping. */
  lemma FormatVerbatim(t: string, d: map<string, Value>)
    requires '%' !in t
    ensures Format(t, d) == Ok(t)
  {
    FormatLiteralPrefix(t, "", d);
    assert t + "" == t;
  }

  /** `%(key)s` renders the mapping's value for `key` in front of the rest
      of the template, and a missing key is a `KeyError`. */
  lemma FormatPlaceholder(key: string, rest: string, d: map<string, Value>)
    requires ')' !in key
    ensures key in d ==> Format("%(" + key + ")s" + rest, d) == Prepend(Show(d[key]), Format(rest, d))
    ensures key !in d ==> Format("%(" + key + ")s" + rest, d) == Fail(KeyError(key))
  {
    var t := "%(" + key + ")s" + rest;
    var n := |key|;
    assert |t| == 4 + n + |rest|;
    assert t[0] == '%' && t[1] == '(';
    assert t[2..2 + n] == key;
    assert t[2 + n] == ')' && t[3 + n] == 's';
    assert t[4 + n..] == rest;
    FormatPlaceholderAt(t, key, d);
  }

  /** The same, for a template given by its characters. */
  lemma FormatPlaceholderAt(t: string, key: string, d: map<string, Value>)
    requires ')' !in key && |t| >= 4 + |key|
    requires t[0] == '%' && t[1] == '(' && t[2..2 + |key|] == key
    requires t[2 + |key|] == ')' && t[3 + |key|] == 's'
    ensures key in d ==> Format(t, d) == Prepend(Show(d[key]), Format(t[4 + |key|..], d))
    ensures key !in d ==> Format(t, d) == Fail(KeyError(key))
  {
    var n := |key|;
    assert t[2..] == key + [')'] + t[3 + n..];
    IndexOfAfter(key, ')', t[3 + n..]);
    assert IndexOf(t[2..], ')') == Some(n);
  }

  /** `%%` renders a single `%`. */
  lemma FormatEscape(d: map<string, Value>)
    ensures Format("%%", d) == Ok("%")
  {
    assert "%%"[2..] == "";
    assert Format("", d) == Ok("");
    assert "%" + "" == "%";
  }
}
