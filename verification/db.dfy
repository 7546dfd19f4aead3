/** Database labels (`db`): a label `dbname[@host[:port]]` names a
    database to connect to, a label configured in the `database` section
    of the configuration stands for its stored settings, and the
    connection settings are the defaults overridden by the label's. */
module Db {

  import opened Base
  import opened Text
  import opened Values

  /** `[a-zA-Z0-9_]`. */
  predicate IsNameChar(c: char)
  {
    IsUpper(c) || IsLower(c) || IsDigit(c) || c == '_'
  }

  /** `[a-zA-Z0-9\-_.]`. */
  predicate IsHostChar(c: char)
  {
    IsNameChar(c) || c == '-' || c == '.'
  }

  /** `[a-zA-Z0-9_]+`. */
  predicate IsDbName(s: string)
  {
    |s| > 0 && forall i :: 0 <= i < |s| ==> IsNameChar(s[i])
  }

  /** `[a-zA-Z0-9\-_.]+`. */
  predicate IsHost(s: string)
  {
    |s| > 0 && forall i :: 0 <= i < |s| ==> IsHostChar(s[i])
  }

  /** `[0-9]+`. */
  predicate IsPort(s: string)
  {
    |s| > 0 && AllDigits(s)
  }

  /** The groups of a label: a port is only ever given after a host. */
  datatype DbLabel = DbLabel(dbname: string, host: Option<string>, port: Option<string>)

  predicate ValidLabel(l: DbLabel)
  {
    && IsDbName(l.dbname)
    && (l.host.Some? ==> IsHost(l.host.value))
    && (l.port.Some? ==> l.host.Some? && IsPort(l.port.value))
  }

  /** The text of a label: `dbname`, then `@host`, then `:port`. */
  function RenderLabel(l: DbLabel): string
  {
    l.dbname + HostPart(l)
  }

  function HostPart(l: DbLabel): string
  {
    match l.host
    case None => ""
    case Some(h) => ['@'] + (h + PortPart(l))
  }

  function PortPart(l: DbLabel): string
  {
    match l.port
    case None => ""
    case Some(p) => [':'] + p
  }

  /** `_DB_REGEX.search(label)`: `^…$` over the whole label, where `$`
      also matches before a final newline. */
  function ParseLabel(name: string): (r: Option<DbLabel>)
    ensures r.Some? ==> ValidLabel(r.value)
  {
    var body := if |name| > 0 && name[|name| - 1] == '\n' then name[..|name| - 1] else name;
    ParseLabelBody(body)
  }

  function ParseLabelBody(body: string): (r: Option<DbLabel>)
    ensures r.Some? ==> ValidLabel(r.value)
  {
    match SplitOnce(body, '@')
    case None => if IsDbName(body) then Some(DbLabel(body, None, None)) else None
    case Some((db, rest)) =>
      if !IsDbName(db) then None
      else
        match SplitOnce(rest, ':')
        case None => if IsHost(rest) then Some(DbLabel(db, Some(rest), None)) else None
        case Some((h, p)) => if IsHost(h) && IsPort(p) then Some(DbLabel(db, Some(h), Some(p))) else None
  }

  /** A label matches only as the text of its groups, possibly followed by
      one newline. */
  lemma ParseLabelText(name: string)
    requires ParseLabel(name).Some?
    ensures name == RenderLabel(ParseLabel(name).value) || name == RenderLabel(ParseLabel(name).value) + "\n"
  {
    var body := if |name| > 0 && name[|name| - 1] == '\n' then name[..|name| - 1] else name;
    ParseBodyText(body);
    assert body != name ==> name == body + "\n";
  }

  lemma ParseBodyText(body: string)
    requires ParseLabelBody(body).Some?
    ensures RenderLabel(ParseLabelBody(body).value) == body
  {
    match SplitOnce(body, '@')
    case None =>
    case Some((db, rest)) =>
      assert body == db + (['@'] + rest);
      match SplitOnce(rest, ':')
      case None =>
        assert HostPart(DbLabel(db, Some(rest), None)) == ['@'] + (rest + "");
      case Some((h, p)) =>
        var l := DbLabel(db, Some(h), Some(p));
        assert PortPart(l) == [':'] + p;
        assert rest == h + ([':'] + p);
  }

  /** The text of valid groups, with or without a final newline, parses
      back to those groups. */
  lemma ParseRenderLabel(l: DbLabel)
    requires ValidLabel(l)
    ensures ParseLabel(RenderLabel(l)) == Some(l)
    ensures ParseLabel(RenderLabel(l) + "\n") == Some(l)
  {
    RenderLabelLast(l);
    ParseFinalNewline(RenderLabel(l));
    ParseRenderBody(l);
  }

  /** `$` matches at the end, or before one final newline. */
  lemma ParseFinalNewline(t: string)
    requires |t| > 0 && t[|t| - 1] != '\n'
    ensures ParseLabel(t) == ParseLabelBody(t)
    ensures ParseLabel(t + "\n") == ParseLabelBody(t)
  {
    assert (t + "\n")[..|t + "\n"| - 1] == t;
  }

  lemma ParseRenderBody(l: DbLabel)
    requires ValidLabel(l)
    ensures ParseLabelBody(RenderLabel(l)) == Some(l)
  {
    if l.host.None? {
      ParseBareName(l);
    } else if l.port.None? {
      ParseWithHost(l);
    } else {
      ParseWithPort(l);
    }
  }

  lemma ParseBareName(l: DbLabel)
    requires ValidLabel(l) && l.host.None?
    ensures ParseLabelBody(RenderLabel(l)) == Some(l)
  {
    assert RenderLabel(l) == l.dbname;
    NoCharOutside(l.dbname, '@');
  }

  lemma ParseWithHost(l: DbLabel)
    requires ValidLabel(l) && l.host.Some? && l.port.None?
    ensures ParseLabelBody(RenderLabel(l)) == Some(l)
  {
    var h := l.host.value;
    assert RenderLabel(l) == l.dbname + ['@'] + h;
    NoCharOutside(l.dbname, '@');
    IndexOfAfter(l.dbname, '@', h);
    NoColonInHost(h);
  }

  lemma ParseWithPort(l: DbLabel)
    requires ValidLabel(l) && l.port.Some?
    ensures ParseLabelBody(RenderLabel(l)) == Some(l)
  {
    var h := l.host.value;
    var p := l.port.value;
    var rest := h + [':'] + p;
    assert RenderLabel(l) == l.dbname + ['@'] + rest;
    NoCharOutside(l.dbname, '@');
    IndexOfAfter(l.dbname, '@', rest);
    NoColonInHost(h);
    IndexOfAfter(h, ':', p);
  }

  lemma NoCharOutside(s: string, c: char)
    requires IsDbName(s) && !IsNameChar(c)
    ensures c !in s
  {
  }

  lemma NoColonInHost(h: string)
    requires IsHost(h)
    ensures ':' !in h
  {
  }

  /** A rendered label ends with a name, host or port character, never a
      newline. */
  lemma RenderLabelLast(l: DbLabel)
    requires ValidLabel(l)
    ensures |RenderLabel(l)| > 0 && IsHostChar(RenderLabel(l)[|RenderLabel(l)| - 1])
  {
    var t := RenderLabel(l);
    match l.host
    case None =>
      assert t == l.dbname + "";
    case Some(h) =>
      match l.port
      case None =>
        assert t[|t| - 1] == h[|h| - 1];
      case Some(p) =>
        assert t[|t| - 1] == p[|p| - 1];
  }

  /** A port is only read after a host: `db:8069` is not a label. */
  lemma PortNeedsHost(name: string)
    requires '@' !in name && ':' in name
    ensures ParseLabel(name).None?
  {
    var body := if |name| > 0 && name[|name| - 1] == '\n' then name[..|name| - 1] else name;
    var k :| 0 <= k < |name| && name[k] == ':';
    assert body[k] == ':';
    assert '@' !in body by { assert forall c :: c in body ==> c in name; }
  }

  /** `match.groupdict()` without the groups that did not match. */
  function GroupDict(l: DbLabel): (d: map<string, Value>)
    ensures "dbname" in d && d["dbname"] == VStr(l.dbname)
    ensures "host" in d <==> l.host.Some?
    ensures "port" in d <==> l.port.Some?
    ensures l.host.Some? ==> d["host"] == VStr(l.host.value)
    ensures l.port.Some? ==> d["port"] == VStr(l.port.value)
    ensures d.Keys <= {"dbname", "host", "port"}
  {
    var d := map["dbname" := VStr(l.dbname)];
    var d := if l.host.Some? then d["host" := VStr(l.host.value)] else d;
    if l.port.Some? then d["port" := VStr(l.port.value)] else d
  }

  /** `get_db_config`: a configured label stands for its stored settings
      unless the query is forced; otherwise the label must parse, and the
      login and password are asked for (given here as `login` and
      `password`). */
  function GetDbConfig(name: string, forceQuery: bool, dbsConf: map<string, map<string, Value>>,
                       login: string, password: string): (r: Result<map<string, Value>>)
  {
    if !forceQuery && name in dbsConf then Ok(dbsConf[name])
    else
      match ParseLabel(name)
      case Some(l) => Ok(GroupDict(l)["user" := VStr(login)]["password" := VStr(password)])
      case None => Fail(ValueError("No database found, or syntax incorrect (use DB_NAME[@HOST[:PORT]])."))
  }

  /** The three outcomes of `get_db_config`: the stored settings, the
      parsed groups with the credentials asked for, or a `ValueError` for a
      label neither configured (or forced) nor grammatical. */
  lemma GetDbConfigCases(name: string, forceQuery: bool, dbsConf: map<string, map<string, Value>>,
                         login: string, password: string)
    ensures !forceQuery && name in dbsConf ==> GetDbConfig(name, forceQuery, dbsConf, login, password) == Ok(dbsConf[name])
    ensures (forceQuery || name !in dbsConf) && ParseLabel(name).Some? ==>
              var c := GetDbConfig(name, forceQuery, dbsConf, login, password);
              && c.Ok?
              && c.value.Keys == GroupDict(ParseLabel(name).value).Keys + {"user", "password"}
              && c.value["user"] == VStr(login) && c.value["password"] == VStr(password)
              && c.value["dbname"] == VStr(ParseLabel(name).value.dbname)
    ensures GetDbConfig(name, forceQuery, dbsConf, login, password).Fail? <==>
              (forceQuery || name !in dbsConf) && ParseLabel(name).None?
    ensures GetDbConfig(name, forceQuery, dbsConf, login, password).Fail? ==>
              GetDbConfig(name, forceQuery, dbsConf, login, password).error.ValueError?
  {
  }

  /** The settings used when the label gives none. */
  const DefaultDb: map<string, Value> :=
    map["user" := VStr("admin"), "password" := VStr("admin"), "host" := VStr("localhost"), "port" := VInt(8069)]

  /** `default_db.update(db)`: the label's settings over the defaults. */
  function Effective(db: map<string, Value>): (e: map<string, Value>)
    ensures e.Keys == DefaultDb.Keys + db.Keys
    ensures forall k :: k in db ==> e[k] == db[k]
    ensures forall k :: k in DefaultDb && k !in db ==> e[k] == DefaultDb[k]
  {
    DefaultDb + db
  }

  /** Connecting to a parsed label: the credentials given and the parsed
      groups override the defaults, and a label without host or port keeps
      `localhost` and 8069. */
  lemma EffectiveOfLabel(name: string, dbsConf: map<string, map<string, Value>>, login: string, password: string)
    requires ParseLabel(name).Some?
    ensures var c := GetDbConfig(name, true, dbsConf, login, password).value;
            var l := ParseLabel(name).value;
            && Effective(c)["user"] == VStr(login)
            && Effective(c)["dbname"] == VStr(l.dbname)
            && Effective(c)["host"] == (if l.host.Some? then VStr(l.host.value) else VStr("localhost"))
            && Effective(c)["port"] == (if l.port.Some? then VStr(l.port.value) else VInt(8069))
  {
    GetDbConfigCases(name, true, dbsConf, login, password);
  }
}
