/** The data files of a module as the record commands see them: a file is
    the list of top-level elements of its root, and a top-level element the
    list of its children. XML parsing and serialisation are not modelled:
    two records are the same serialisation iff they are equal values. */
module Corpus {

  import opened Base
  import opened OoopUtils

  /** A child of a top-level element: its tag, its attributes, and the
      `ref` and `eval` attribute values found on it and its descendants. */
  datatype Record = Record(tag: string, attrs: map<string, string>, refs: seq<string>, evals: seq<string>)

  datatype Section = Section(tag: string, records: seq<Record>)

  datatype Doc = Doc(sections: seq<Section>)

  /** Position of a record: index of its top-level element, index within it. */
  datatype Loc = Loc(section: nat, index: nat)

  /** What the loader keeps for a declared id. `replaced` counts the imports
      that replaced the record. */
  datatype Tracked = Tracked(filename: string, record: Record, deps: set<XmlId>, loc: Loc, replaced: nat)

  /** What the loader keeps for a loaded file: its content and the union of
      its records' dependencies. */
  datatype TrackedFile = TrackedFile(content: Doc, deps: set<XmlId>)

  /** The content of a new data file: one empty `data` element. */
  const EmptyData: Doc := Doc([Section("data", [])])

  predicate ValidLoc(d: Doc, l: Loc)
  {
    l.section < |d.sections| && l.index < |d.sections[l.section].records|
  }

  function At(d: Doc, l: Loc): Record
    requires ValidLoc(d, l)
  {
    d.sections[l.section].records[l.index]
  }

  /** Two documents with the same elements and element sizes. */
  predicate SameShape(d: Doc, e: Doc)
  {
    |d.sections| == |e.sections| &&
    forall s :: 0 <= s < |d.sections| ==>
      d.sections[s].tag == e.sections[s].tag && |d.sections[s].records| == |e.sections[s].records|
  }

  /** `parent.replace(old, new)`: the record at `l` becomes `r`, everything
      else is kept. */
  function ReplaceAt(d: Doc, l: Loc, r: Record): (e: Doc)
    requires ValidLoc(d, l)
    ensures SameShape(d, e) && ValidLoc(e, l) && At(e, l) == r
    ensures forall m :: ValidLoc(d, m) && m != l ==> At(e, m) == At(d, m)
  {
    var sec := d.sections[l.section];
    Doc(d.sections[l.section := sec.(records := sec.records[l.index := r])])
  }

  /** `root.getchildren()[0].append(r)`: an `IndexError` for a root without
      children; otherwise `r` becomes the last child of the first element,
      and every record keeps its position. */
  function AppendFirst(d: Doc, r: Record): (e: Result<Doc>)
    ensures |d.sections| == 0 <==> e.Fail?
    ensures e.Fail? ==> e.error.IndexError?
    ensures e.Ok? ==>
              && |e.value.sections| == |d.sections|
              && e.value.sections[0].tag == d.sections[0].tag
              && e.value.sections[0].records == d.sections[0].records + [r]
              && e.value.sections[1..] == d.sections[1..]
    ensures e.Ok? ==> forall m :: ValidLoc(d, m) ==> ValidLoc(e.value, m) && At(e.value, m) == At(d, m)
  {
    if |d.sections| == 0 then Fail(IndexError("list index out of range"))
    else
      var first := d.sections[0];
      Ok(Doc(d.sections[0 := first.(records := first.records + [r])]))
  }

  /** The children of the top-level `data` elements, with their positions,
      in document order. */
  function DataRecords(d: Doc): (r: seq<(Loc, Record)>)
    ensures forall k :: 0 <= k < |r| ==>
              ValidLoc(d, r[k].0) && At(d, r[k].0) == r[k].1 && d.sections[r[k].0.section].tag == "data"
  {
    DataRecordsUpTo(d, |d.sections|)
  }

  function DataRecordsUpTo(d: Doc, n: nat): (r: seq<(Loc, Record)>)
    requires n <= |d.sections|
    ensures forall k :: 0 <= k < |r| ==>
              && ValidLoc(d, r[k].0) && At(d, r[k].0) == r[k].1
              && r[k].0.section < n && d.sections[r[k].0.section].tag == "data"
  {
    if n == 0 then []
    else
      var before := DataRecordsUpTo(d, n - 1);
      var sec := d.sections[n - 1];
      if sec.tag != "data" then before
      else before + seq(|sec.records|, i requires 0 <= i < |sec.records| => (Loc(n - 1, i), sec.records[i]))
  }

  /** Every child of a top-level `data` element is listed. */
  lemma {:induction false} DataRecordsComplete(d: Doc, n: nat, l: Loc)
    requires n <= |d.sections|
    requires ValidLoc(d, l) && l.section < n && d.sections[l.section].tag == "data"
    ensures (l, At(d, l)) in DataRecordsUpTo(d, n)
  {
    var sec := d.sections[n - 1];
    if l.section < n - 1 {
      DataRecordsComplete(d, n - 1, l);
    } else {
      var tail := seq(|sec.records|, i requires 0 <= i < |sec.records| => (Loc(n - 1, i), sec.records[i]));
      assert tail[l.index] == (l, At(d, l));
    }
  }
}
