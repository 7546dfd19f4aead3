/** `oem config get`: a configuration tree printed as one `path=value`
    line per leaf, the path being the dotted chain of keys below the
    requested prefix. */
module OemConfig {

  import opened Text
  import opened Values

  /** A configuration value: a scalar, or a dictionary whose entries are
      listed in iteration order. */
  datatype Cfg = Leaf(v: Value) | Dict(entries: seq<Entry>)

  datatype Entry = Entry(key: string, val: Cfg)

  /** `p` in `show_config`: nothing for the empty prefix, else the prefix
      and a dot. */
  function DotPrefix(prefix: string): string
  {
    if prefix == "" then "" else prefix + "."
  }

  /** `show_config(c, prefix)`: `None` prints nothing and any other scalar
      prints itself alone. */
  function ShowConfig(c: Cfg, prefix: string): (lines: seq<string>)
    ensures c == Leaf(VNone) ==> lines == []
    ensures c.Leaf? && c.v != VNone ==> lines == [Show(c.v)]
  {
    match c
    case Leaf(v) => if v == VNone then [] else [Show(v)]
    case Dict(entries) => ShowEntries(entries, DotPrefix(prefix))
  }

  /** The lines of a dictionary's entries in order, each key read below
      `p`. */
  function ShowEntries(entries: seq<Entry>, p: string): seq<string>
    decreases entries
  {
    if |entries| == 0 then [] else EntryLines(entries[0], p) + ShowEntries(entries[1..], p)
  }

  /** The lines of one entry: `p` and the key, `=` and the value for a
      scalar; a nested dictionary has no line of its own, its entries being
      read below the key. */
  function EntryLines(e: Entry, p: string): seq<string>
    decreases e
  {
    match e.val
    case Dict(sub) => ShowEntries(sub, DotPrefix(p + e.key))
    case Leaf(v) => [p + e.key + "=" + Show(v)]
  }

  /** The number of scalars in a tree, `None` included. */
  function LeafCount(c: Cfg): nat
  {
    match c
    case Leaf(_) => 1
    case Dict(entries) => EntriesLeafCount(entries)
  }

  function EntriesLeafCount(entries: seq<Entry>): nat
    decreases entries
  {
    if |entries| == 0 then 0 else LeafCount(entries[0].val) + EntriesLeafCount(entries[1..])
  }

  /** One line per scalar leaf: a dictionary prints as many lines as it
      holds scalars, so empty dictionaries at any depth print nothing. */
  lemma {:induction false} ShowEntriesCount(entries: seq<Entry>, p: string)
    ensures |ShowEntries(entries, p)| == EntriesLeafCount(entries)
    decreases entries
  {
    if |entries| > 0 {
      EntryLinesCount(entries[0], p);
      ShowEntriesCount(entries[1..], p);
    }
  }

  lemma {:induction false} EntryLinesCount(e: Entry, p: string)
    ensures |EntryLines(e, p)| == LeafCount(e.val)
    decreases e
  {
    if e.val.Dict? {
      ShowEntriesCount(e.val.entries, DotPrefix(p + e.key));
    }
  }

  /** A dictionary prints exactly one line per scalar leaf. */
  lemma ShowDictCount(entries: seq<Entry>, prefix: string)
    ensures |ShowConfig(Dict(entries), prefix)| == LeafCount(Dict(entries))
  {
    ShowEntriesCount(entries, DotPrefix(prefix));
  }

  /** Following the keys `ks` from `entries` reaches the scalar `v`. */
  ghost predicate LeafAt(entries: seq<Entry>, ks: seq<string>, v: Value)
    decreases entries, ks
  {
    && |ks| >= 1
    && exists i :: 0 <= i < |entries| && EntryLeads(entries[i], ks, v)
  }

  ghost predicate EntryLeads(e: Entry, ks: seq<string>, v: Value)
    requires |ks| >= 1
    decreases e, ks
  {
    && e.key == ks[0]
    && if |ks| == 1 then e.val == Leaf(v)
       else e.val.Dict? && LeafAt(e.val.entries, ks[1..], v)
  }

  /** The dotted path of a chain of keys. */
  function DottedPath(ks: seq<string>): string
  {
    Join(ks, '.')
  }

  ghost predicate KeysNonEmpty(ks: seq<string>)
  {
    forall i :: 0 <= i < |ks| ==> ks[i] != ""
  }

  /** Every scalar reached by non-empty keys is printed as its dotted path,
      below the prefix, an equals sign and its value. */
  lemma {:induction false} LeafShown(entries: seq<Entry>, p: string, ks: seq<string>, v: Value)
    requires LeafAt(entries, ks, v) && KeysNonEmpty(ks)
    ensures p + DottedPath(ks) + "=" + Show(v) in ShowEntries(entries, p)
    decreases entries
  {
    var i :| 0 <= i < |entries| && EntryLeads(entries[i], ks, v);
    if i == 0 {
      EntryShown(entries[0], p, ks, v);
    } else {
      assert EntryLeads(entries[1..][i - 1], ks, v);
      LeafShown(entries[1..], p, ks, v);
    }
  }

  lemma {:induction false} EntryShown(e: Entry, p: string, ks: seq<string>, v: Value)
    requires |ks| >= 1 && EntryLeads(e, ks, v) && KeysNonEmpty(ks)
    ensures p + DottedPath(ks) + "=" + Show(v) in EntryLines(e, p)
    decreases e
  {
    if |ks| == 1 {
      assert DottedPath(ks) == ks[0];
    } else {
      var rest := ks[1..];
      assert KeysNonEmpty(rest) by {
        forall j | 0 <= j < |rest| ensures rest[j] != "" { assert rest[j] == ks[j + 1]; }
      }
      LeafShown(e.val.entries, DotPrefix(p + e.key), rest, v);
      assert ks[0] != "";
      DottedStep(p, ks);
    }
  }

  /** Reading keys below `p`: the prefix of the first key's children
      followed by the rest of the path is `p` followed by the whole path. */
  lemma DottedStep(p: string, ks: seq<string>)
    requires |ks| >= 2 && ks[0] != ""
    ensures DotPrefix(p + ks[0]) + DottedPath(ks[1..]) == p + DottedPath(ks)
  {
    assert p + ks[0] != "" by { assert |p + ks[0]| > 0; }
    assert Join(ks, '.') == ks[0] + ['.'] + Join(ks[1..], '.');
  }

  /** Every printed line comes from a scalar of the tree, reached by a
      chain of keys, when no key of the tree is empty. */
  lemma {:induction false} LineFromLeaf(entries: seq<Entry>, p: string, line: string)
    requires EntriesKeysNonEmpty(entries)
    requires line in ShowEntries(entries, p)
    ensures exists ks, v :: LeafAt(entries, ks, v) && KeysNonEmpty(ks) && line == p + DottedPath(ks) + "=" + Show(v)
    decreases entries
  {
    assert |entries| > 0;
    if line in EntryLines(entries[0], p) {
      LineFromEntry(entries[0], p, line);
      var ks, v :| |ks| >= 1 && EntryLeads(entries[0], ks, v) && KeysNonEmpty(ks) && line == p + DottedPath(ks) + "=" + Show(v);
      assert LeafAt(entries, ks, v);
    } else {
      assert EntriesKeysNonEmpty(entries[1..]) by {
        forall j | 0 <= j < |entries[1..]| ensures entries[1..][j] == entries[j + 1] {}
      }
      LineFromLeaf(entries[1..], p, line);
      var ks, v :| LeafAt(entries[1..], ks, v) && KeysNonEmpty(ks) && line == p + DottedPath(ks) + "=" + Show(v);
      var j :| 0 <= j < |entries[1..]| && EntryLeads(entries[1..][j], ks, v);
      assert EntryLeads(entries[j + 1], ks, v);
      assert LeafAt(entries, ks, v);
    }
  }

  lemma {:induction false} LineFromEntry(e: Entry, p: string, line: string)
    requires e.key != "" && (e.val.Dict? ==> EntriesKeysNonEmpty(e.val.entries))
    requires line in EntryLines(e, p)
    ensures exists ks, v :: |ks| >= 1 && EntryLeads(e, ks, v) && KeysNonEmpty(ks) && line == p + DottedPath(ks) + "=" + Show(v)
    decreases e
  {
    match e.val
    case Leaf(v) =>
      var ks := [e.key];
      assert DottedPath(ks) == e.key;
      assert EntryLeads(e, ks, v);
    case Dict(sub) =>
      var q := DotPrefix(p + e.key);
      LineFromLeaf(sub, q, line);
      var rest, v :| LeafAt(sub, rest, v) && KeysNonEmpty(rest) && line == q + DottedPath(rest) + "=" + Show(v);
      var ks := [e.key] + rest;
      assert ks[1..] == rest && ks[0] == e.key;
      assert KeysNonEmpty(ks) by {
        forall j | 0 <= j < |ks| ensures ks[j] != "" { if j > 0 { assert ks[j] == rest[j - 1]; } }
      }
      DottedStep(p, ks);
      assert EntryLeads(e, ks, v);
  }

  /** No key anywhere in the entries is empty. */
  ghost predicate EntriesKeysNonEmpty(entries: seq<Entry>)
    decreases entries
  {
    forall i :: 0 <= i < |entries| ==>
      entries[i].key != "" && (entries[i].val.Dict? ==> EntriesKeysNonEmpty(entries[i].val.entries))
  }

  /** With no empty key in the tree, the printed lines are exactly the
      scalars, each as the prefix, its dotted path, `=` and its value. */
  lemma ShowConfigLines(entries: seq<Entry>, prefix: string, line: string)
    requires EntriesKeysNonEmpty(entries)
    ensures line in ShowConfig(Dict(entries), prefix) <==>
              exists ks, v :: LeafAt(entries, ks, v) && KeysNonEmpty(ks) &&
                line == DotPrefix(prefix) + DottedPath(ks) + "=" + Show(v)
  {
    var p := DotPrefix(prefix);
    if line in ShowConfig(Dict(entries), prefix) {
      LineFromLeaf(entries, p, line);
    }
    if exists ks, v :: LeafAt(entries, ks, v) && KeysNonEmpty(ks) && line == p + DottedPath(ks) + "=" + Show(v) {
      var ks, v :| LeafAt(entries, ks, v) && KeysNonEmpty(ks) && line == p + DottedPath(ks) + "=" + Show(v);
      LeafShown(entries, p, ks, v);
    }
  }
}
