/** Naming helpers, the natural sort key, and the two list edits of the
    shared command base: inserting an `import` line and registering a data
    file in the manifest. */
module Common {

  import opened Base
  import opened Text

  // ---------------------------------------------------------------------
  // XML names and file names

  /** Characters kept by the filter `[^a-zA-Z0-9_]` → ''. */
  predicate Kept(c: char)
  {
    IsLower(c) || IsUpper(c) || IsDigit(c) || c == '_'
  }

  /** Characters that may appear in a normalised name. */
  predicate NameChar(c: char)
  {
    IsLower(c) || IsDigit(c) || c == '_'
  }

  function KeepOnly(s: string): (r: string)
    ensures |r| <= |s|
    ensures forall i :: 0 <= i < |r| ==> Kept(r[i])
  {
    if |s| == 0 then ""
    else if Kept(s[0]) then [s[0]] + KeepOnly(s[1..])
    else KeepOnly(s[1..])
  }

  function LowerAll(s: string): (r: string)
    ensures |r| == |s|
    ensures forall i :: 0 <= i < |s| ==> r[i] == ToLower(s[i])
  {
    if |s| == 0 then "" else [ToLower(s[0])] + LowerAll(s[1..])
  }

  /** Python's `s[0:n]`: a negative bound counts from the end. */
  function SliceTo(s: string, n: int): (r: string)
    ensures n >= 0 ==> r == s[..if n < |s| then n else |s|]
    ensures n < 0 ==> r == s[..if |s| + n > 0 then |s| + n else 0]
  {
    if n >= 0 then s[..if n < |s| then n else |s|]
    else s[..if |s| + n > 0 then |s| + n else 0]
  }

  /** `normalize_xml_name`: dots and spaces become underscores, every other
      character outside `[a-zA-Z0-9_]` is dropped, the rest is lower-cased,
      then the result is cut to `maxSize` with Python slice semantics. */
  function NormalizeXmlName(name: string, maxSize: Option<int>): (r: string)
    ensures forall i :: 0 <= i < |r| ==> NameChar(r[i])
    ensures maxSize.Some? && maxSize.value >= 0 ==> |r| <= maxSize.value
    ensures |r| <= |name|
  {
    var res := ReplaceChar(ReplaceChar(name, '.', '_'), ' ', '_');
    var res := LowerAll(KeepOnly(res));
    match maxSize
    case None => res
    case Some(n) => SliceTo(res, n)
  }

  /** The per-character reading of the normalisation. */
  function NormChar(c: char): Option<char>
  {
    if c == '.' || c == ' ' then Some('_')
    else if Kept(c) then Some(ToLower(c))
    else None
  }

  function CharwiseNormalize(s: string): string
  {
    if |s| == 0 then ""
    else match NormChar(s[0])
      case Some(c) => [c] + CharwiseNormalize(s[1..])
      case None => CharwiseNormalize(s[1..])
  }

  /** Without a size limit, normalising is the character-by-character map:
      in particular `.` and ` ` survive as `_` instead of being dropped. */
  lemma {:induction false} NormalizeIsCharwise(s: string)
    ensures NormalizeXmlName(s, None) == CharwiseNormalize(s)
    decreases |s|
  {
    if |s| > 0 {
      NormalizeIsCharwise(s[1..]);
      var r1 := ReplaceChar(ReplaceChar(s, '.', '_'), ' ', '_');
      var t1 := ReplaceChar(ReplaceChar(s[1..], '.', '_'), ' ', '_');
      assert r1[1..] == t1;
      assert r1 == [r1[0]] + t1;
      if Kept(r1[0]) {
        assert KeepOnly(r1) == [r1[0]] + KeepOnly(t1);
        assert LowerAll([r1[0]] + KeepOnly(t1)) == [ToLower(r1[0])] + LowerAll(KeepOnly(t1));
      } else {
        assert KeepOnly(r1) == KeepOnly(t1);
      }
    }
  }

  /** Normalised names are fixed points of the normalisation for any
      non-negative size limit. */
  lemma NormalizeIdempotent(name: string, maxSize: Option<int>)
    requires maxSize.Some? ==> maxSize.value >= 0
    ensures NormalizeXmlName(NormalizeXmlName(name, maxSize), maxSize) == NormalizeXmlName(name, maxSize)
  {
    var r := NormalizeXmlName(name, maxSize);
    NormalizeNameChars(r);
  }

  /** A string of name characters normalises to itself. */
  lemma {:induction false} NormalizeNameChars(s: string)
    requires forall i :: 0 <= i < |s| ==> NameChar(s[i])
    ensures NormalizeXmlName(s, None) == s
    ensures forall n :: n >= |s| ==> NormalizeXmlName(s, Some(n)) == s
    decreases |s|
  {
    NormalizeIsCharwise(s);
    CharwiseFixed(s);
  }

  lemma {:induction false} CharwiseFixed(s: string)
    requires forall i :: 0 <= i < |s| ==> NameChar(s[i])
    ensures CharwiseNormalize(s) == s
    decreases |s|
  {
    if |s| > 0 {
      CharwiseFixed(s[1..]);
      assert [s[0]] + s[1..] == s;
    }
  }

  /** `file_normalize_model_name`. */
  function FileNormalizeModelName(name: string): (r: string)
    ensures |r| == |name| && '.' !in r
    ensures forall i :: 0 <= i < |name| && name[i] != '.' ==> r[i] == name[i]
    ensures forall i :: 0 <= i < |name| && name[i] == '.' ==> r[i] == '_'
  {
    ReplaceChar(name, '.', '_')
  }

  /** `normalize_xml_filename`: the model with its dots replaced, then `_`,
      the kind and `.xml`; the model part has no dot left. */
  function NormalizeXmlFilename(model: string, kind: string): (r: string)
    ensures |r| == |model| + |kind| + 5
    ensures '.' !in r[..|model|]
    ensures forall i :: 0 <= i < |model| && model[i] != '.' ==> r[i] == model[i]
    ensures r[|model|..] == "_" + kind + ".xml"
  {
    FileNormalizeModelName(model) + "_" + kind + ".xml"
  }

  // ---------------------------------------------------------------------
  // Natural sort key

  /** `re.split('([0-9]+)', s)`: text pieces at even positions, maximal digit
      runs at odd positions. */
  function DigitSplit(s: string): (r: seq<string>)
    ensures |r| % 2 == 1
    ensures forall i :: 0 <= i < |r| && i % 2 == 0 ==> NoDigit(r[i])
    ensures forall i :: 0 <= i < |r| && i % 2 == 1 ==> r[i] != "" && AllDigits(r[i])
    ensures (|s| > 0 && IsDigit(s[0])) <==> (|r| > 1 && r[0] == "")
    decreases |s|
  {
    if |s| == 0 then [""]
    else
      var rest := DigitSplit(s[1..]);
      if IsDigit(s[0]) then
        if |s| > 1 && IsDigit(s[1]) then ["", [s[0]] + rest[1]] + rest[2..]
        else ["", [s[0]]] + rest
      else
        [[s[0]] + rest[0]] + rest[1..]
  }

  function Concat(ps: seq<string>): string
  {
    if |ps| == 0 then "" else ps[0] + Concat(ps[1..])
  }

  /** The pieces of the split put back together give the key. */
  lemma {:induction false} DigitSplitConcat(s: string)
    ensures Concat(DigitSplit(s)) == s
    decreases |s|
  {
    if |s| > 0 {
      var rest := DigitSplit(s[1..]);
      DigitSplitConcat(s[1..]);
      var r := DigitSplit(s);
      if IsDigit(s[0]) && |s| > 1 && IsDigit(s[1]) {
        assert IsDigit(s[1..][0]);
        ConcatHead(r[1..], rest[1..], [s[0]]);
        ConcatTail(r, "", r[1..]);
        ConcatTail(rest, "", rest[1..]);
      } else if IsDigit(s[0]) {
        ConcatTail(r[1..], [s[0]], rest);
        ConcatTail(r, "", r[1..]);
      } else {
        ConcatHead(r, rest, [s[0]]);
      }
      assert s == [s[0]] + s[1..];
    }
  }

  /** Pieces that differ only by a prefix `p` on the first one. */
  lemma ConcatHead(a: seq<string>, b: seq<string>, p: string)
    requires |a| >= 1 && |b| >= 1 && a[0] == p + b[0] && a[1..] == b[1..]
    ensures Concat(a) == p + Concat(b)
  {
  }

  /** Pieces that are `p` followed by the pieces `b`. */
  lemma ConcatTail(a: seq<string>, p: string, b: seq<string>)
    requires |a| >= 1 && a[0] == p && a[1..] == b
    ensures Concat(a) == p + Concat(b)
  {
  }

  /** Text pieces strictly between two digit runs are never empty, so each
      odd piece is a whole (maximal) digit run. */
  lemma {:induction false} DigitSplitMaximal(s: string)
    ensures forall i :: 0 < i < |DigitSplit(s)| - 1 && i % 2 == 0 ==> DigitSplit(s)[i] != ""
    decreases |s|
  {
    if |s| > 0 {
      var rest := DigitSplit(s[1..]);
      DigitSplitMaximal(s[1..]);
      var r := DigitSplit(s);
      if IsDigit(s[0]) && |s| > 1 && IsDigit(s[1]) {
        forall i | 0 < i < |r| - 1 && i % 2 == 0 ensures r[i] != "" {
          assert r[i] == rest[i];
        }
      } else if IsDigit(s[0]) {
        forall i | 0 < i < |r| - 1 && i % 2 == 0 ensures r[i] != "" {
          if i == 2 {
            assert |rest| > 1;
            assert !(|s[1..]| > 0 && IsDigit(s[1..][0]));
          } else {
            assert r[i] == rest[i - 2];
          }
        }
      } else {
        forall i | 0 < i < |r| - 1 && i % 2 == 0 ensures r[i] != "" {
          assert r[i] == rest[i];
        }
      }
    }
  }

  datatype KeyPart = Text(text: string) | Num(n: nat)

  /** `get_natural_sort_key`: digit runs are compared as numbers. */
  function NaturalSortKey(key: string): (r: seq<KeyPart>)
    ensures |r| % 2 == 1
    ensures forall i :: 0 <= i < |r| && i % 2 == 0 ==> r[i].Text? && NoDigit(r[i].text)
    ensures forall i :: 0 <= i < |r| && i % 2 == 1 ==> r[i].Num?
  {
    var pieces := DigitSplit(key);
    seq(|pieces|, i requires 0 <= i < |pieces| =>
      if i % 2 == 1 then Num(ParseNat(pieces[i])) else Text(pieces[i]))
  }

  /** The numbers of the key are the values of the key's maximal digit runs,
      and its texts are the text between them. */
  lemma NaturalSortKeyMeaning(key: string)
    ensures |NaturalSortKey(key)| == |DigitSplit(key)|
    ensures forall i :: 0 <= i < |DigitSplit(key)| && i % 2 == 1 ==>
              NaturalSortKey(key)[i] == Num(ParseNat(DigitSplit(key)[i]))
    ensures forall i :: 0 <= i < |DigitSplit(key)| && i % 2 == 0 ==>
              NaturalSortKey(key)[i] == Text(DigitSplit(key)[i])
    ensures Concat(DigitSplit(key)) == key
    ensures forall i :: 0 < i < |DigitSplit(key)| - 1 && i % 2 == 0 ==> DigitSplit(key)[i] != ""
  {
    DigitSplitConcat(key);
    DigitSplitMaximal(key);
  }

  /** `"r10"` sorts as `['r', 10, '']`. */
  lemma NaturalSortKeyExample()
    ensures NaturalSortKey("r10") == [Text("r"), Num(10), Text("")]
  {
    assert DigitSplit("0") == ["", "0", ""];
    assert "10"[1..] == "0" && "r10"[1..] == "10";
    assert ['1'] + "0" == "10" && ['r'] + "" == "r";
    assert DigitSplit("10") == ["", "10", ""];
    assert DigitSplit("r10") == ["r", "10", ""];
    assert ParseNat("10") == 10 by { assert "10"[..1] == "1"; }
  }

  // ---------------------------------------------------------------------
  // add_import on the line list of an existing `__init__.py`

  predicate IsImportLine(line: string)
  {
    StartsWith(line, "import")
  }

  /** `re.search('^import +X *', line)`. */
  predicate ImportsModule(line: string, x: string)
  {
    IsImportLine(line) && SpacesThen(line[6..], x)
  }

  /** `' +X'` matched at the start of `s`: one or more spaces, then `x`. */
  predicate SpacesThen(s: string, x: string)
    decreases |s|
  {
    |s| > 0 && s[0] == ' ' && (StartsWith(s[1..], x) || SpacesThen(s[1..], x))
  }

  /** Index of the first `import` line. */
  function FirstImport(lines: seq<string>): (r: nat)
    ensures r <= |lines|
    ensures forall i :: 0 <= i < r ==> !IsImportLine(lines[i])
    ensures r < |lines| ==> IsImportLine(lines[r])
  {
    if |lines| == 0 then 0
    else if IsImportLine(lines[0]) then 0
    else 1 + FirstImport(lines[1..])
  }

  /** End of the run of consecutive `import` lines starting at `i`. */
  function RunEnd(lines: seq<string>, i: nat): (r: nat)
    requires i <= |lines|
    ensures i <= r <= |lines|
    ensures forall k :: i <= k < r ==> IsImportLine(lines[k])
    ensures r < |lines| ==> !IsImportLine(lines[r])
    decreases |lines| - i
  {
    if i == |lines| || !IsImportLine(lines[i]) then i else RunEnd(lines, i + 1)
  }

  /** The lines before the first one importing `x`. */
  function UpToImportOf(lines: seq<string>, x: string): (r: seq<string>)
    ensures |r| <= |lines| && r == lines[..|r|]
    ensures forall k :: 0 <= k < |r| ==> !ImportsModule(lines[k], x)
    ensures |r| < |lines| ==> ImportsModule(lines[|r|], x)
  {
    if |lines| == 0 || ImportsModule(lines[0], x) then []
    else [lines[0]] + UpToImportOf(lines[1..], x)
  }

  /** Where `import x` goes: after the first run of `import` lines, when a
      line follows that run. */
  function InsertionPoint(lines: seq<string>): (r: Option<nat>)
    ensures r.Some? ==> r.value < |lines| && !IsImportLine(lines[r.value])
  {
    var f := FirstImport(lines);
    if f < |lines| && RunEnd(lines, f) < |lines| then Some(RunEnd(lines, f)) else None
  }

  /** The closed form of `add_import` on an existing file: `import x` goes
      right after the first run of `import` lines when another line follows
      that run, and everything from a later line importing `x` onwards is
      dropped; otherwise `import x` and an empty line are appended. */
  function AddImportResult(lines: seq<string>, x: string): seq<string>
  {
    match InsertionPoint(lines)
    case Some(j) => lines[..j] + ["import " + x] + [lines[j]] + UpToImportOf(lines[j + 1..], x)
    case None => lines + ["import " + x, ""]
  }

  /** `add_import` for an existing file, on its lines, as the original
      single pass with its two flags. */
  method AddImport(lines: seq<string>, x: string) returns (out: seq<string>)
    ensures out == AddImportResult(lines, x)
  {
    var f := FirstImport(lines);
    var j := if f < |lines| then RunEnd(lines, f) else |lines|;
    var lastWasImport := false;
    var inserted := false;
    out := [];
    var i := 0;
    while i < |lines|
      invariant 0 <= i <= |lines|
      invariant !inserted ==> i <= j && out == lines[..i]
      invariant !inserted ==> (lastWasImport <==> f < i)
      invariant !inserted && !lastWasImport ==> i <= f
      invariant inserted ==> j < i && j < |lines| && !lastWasImport
      invariant inserted ==> out == lines[..j] + ["import " + x] + lines[j..i]
      invariant inserted ==> forall m :: j < m < i ==> !ImportsModule(lines[m], x)
      decreases |lines| - i
    {
      var line := lines[i];
      if !inserted && IsImportLine(line) {
        out := out + [line];
        lastWasImport := true;
        i := i + 1;
        continue;
      }
      if ImportsModule(line, x) {
        inserted := true;
        break;
      }
      if lastWasImport {
        assert j == i;
        assert lines[j..i + 1] == [line];
        out := out + ["import " + x];
        lastWasImport := false;
        inserted := true;
      } else if inserted {
        assert lines[j..i + 1] == lines[j..i] + [line];
      } else {
        assert lines[..i + 1] == lines[..i] + [line];
      }
      out := out + [line];
      i := i + 1;
    }
    if !inserted {
      out := out + ["import " + x, ""];
      assert out == AddImportResult(lines, x);
    } else {
      AddImportClosedForm(lines, x, j, i);
    }
  }

  lemma AddImportClosedForm(lines: seq<string>, x: string, j: nat, i: nat)
    requires j < i <= |lines|
    requires InsertionPoint(lines) == Some(j)
    requires forall m :: j < m < i ==> !ImportsModule(lines[m], x)
    requires i == |lines| || ImportsModule(lines[i], x)
    ensures AddImportResult(lines, x) == lines[..j] + ["import " + x] + lines[j..i]
  {
    var imp := ["import " + x];
    var tail := UpToImportOf(lines[j + 1..], x);
    assert AddImportResult(lines, x) == lines[..j] + imp + [lines[j]] + tail;
    UpToImportOfAt(lines[j + 1..], x, i - (j + 1));
    SliceTail(lines, j + 1, i);
    SliceCons(lines, j, i);
    ConcatAssoc(lines[..j] + imp, [lines[j]], tail);
  }

  lemma SliceTail<T>(s: seq<T>, a: nat, b: nat)
    requires a <= b <= |s|
    ensures s[a..][..b - a] == s[a..b]
  {
  }

  lemma SliceCons<T>(s: seq<T>, a: nat, b: nat)
    requires a < b <= |s|
    ensures s[a..b] == [s[a]] + s[a + 1..b]
  {
  }

  lemma ConcatAssoc<T>(a: seq<T>, b: seq<T>, c: seq<T>)
    ensures a + b + c == a + (b + c)
  {
  }

  lemma {:induction false} UpToImportOfAt(s: seq<string>, x: string, k: nat)
    requires k <= |s|
    requires forall m :: 0 <= m < k ==> !ImportsModule(s[m], x)
    requires k == |s| || ImportsModule(s[k], x)
    ensures UpToImportOf(s, x) == s[..k]
    decreases k
  {
    if k > 0 {
      UpToImportOfAt(s[1..], x, k - 1);
      assert s[..k] == [s[0]] + s[1..][..k - 1];
    }
  }

  /** As written, a later line importing `x` ends the pass and every line
      from there on is lost: an import, a blank line, a line importing `x`
      and a line of code come out as the import, `import x` and the blank
      line, one line fewer than went in. */
  lemma AddImportDropsLines(first: string, blank: string, later: string, code: string, x: string)
    requires IsImportLine(first) && !IsImportLine(blank) && ImportsModule(later, x)
    ensures AddImportResult([first, blank, later, code], x) == [first, "import " + x, blank]
    ensures |AddImportResult([first, blank, later, code], x)| < |[first, blank, later, code]|
  {
    var lines := [first, blank, later, code];
    assert FirstImport(lines) == 0;
    assert RunEnd(lines, 1) == 1;
    assert RunEnd(lines, 0) == 1;
    assert InsertionPoint(lines) == Some(1);
    assert lines[2..][0] == later;
    assert UpToImportOf(lines[2..], x) == [];
    assert lines[..1] == [first];
  }

  /** Some line imports `x`. */
  predicate HasImportOf(lines: seq<string>, x: string)
  {
    exists k :: 0 <= k < |lines| && ImportsModule(lines[k], x)
  }

  /** `add_import` as evidently intended: a file that already imports `x`
      is left as it is; otherwise `import x` goes where the original puts
      it, and no line is lost. */
  function AddImportFixed(lines: seq<string>, x: string): (r: seq<string>)
    ensures HasImportOf(r, x)
  {
    if HasImportOf(lines, x) then lines
    else
      var imp := "import " + x;
      assert ImportsModule(imp, x) by { assert imp[6..] == " " + x; assert (" " + x)[1..] == x; }
      match InsertionPoint(lines)
      case Some(j) =>
        var r := lines[..j] + [imp] + lines[j..];
        assert r[j] == imp;
        r
      case None =>
        var r := lines + [imp, ""];
        assert r[|lines|] == imp;
        r
  }

  /** Every line of the file survives, in order: the result is the file
      itself, or the file with `import x` inserted at one place, or the file
      followed by `import x` and an empty line. */
  lemma AddImportFixedKeepsLines(lines: seq<string>, x: string)
    ensures var r := AddImportFixed(lines, x);
            || r == lines
            || (exists j :: 0 <= j < |lines| && r == lines[..j] + ["import " + x] + lines[j..])
            || r == lines + ["import " + x, ""]
  {
    if !HasImportOf(lines, x) && InsertionPoint(lines).Some? {
      var j := InsertionPoint(lines).value;
      assert AddImportFixed(lines, x) == lines[..j] + ["import " + x] + lines[j..];
    }
  }

  /** Adding an import twice is adding it once. */
  lemma AddImportFixedIdempotent(lines: seq<string>, x: string)
    ensures AddImportFixed(AddImportFixed(lines, x), x) == AddImportFixed(lines, x)
  {
  }

  /** On a file that does not import `x` yet, the corrected and the
      original pass agree. */
  lemma AddImportFixedAgrees(lines: seq<string>, x: string)
    requires !HasImportOf(lines, x)
    ensures AddImportFixed(lines, x) == AddImportResult(lines, x)
  {
    if InsertionPoint(lines).Some? {
      var j := InsertionPoint(lines).value;
      var s := lines[j + 1..];
      assert forall m :: 0 <= m < |s| ==> !ImportsModule(s[m], x) by {
        forall m | 0 <= m < |s| ensures !ImportsModule(s[m], x) { assert s[m] == lines[j + 1 + m]; }
      }
      UpToImportOfAt(s, x, |s|);
      assert UpToImportOf(s, x) == s by { assert s[..|s|] == s; }
      InsertBefore(lines, j, "import " + x);
    }
  }

  /** Inserting before line `j` keeps line `j` and the rest after it. */
  lemma InsertBefore<T>(a: seq<T>, j: nat, v: T)
    requires j < |a|
    ensures a[..j] + [v] + [a[j]] + a[j + 1..] == a[..j] + [v] + a[j..]
  {
    assert a[j..] == [a[j]] + a[j + 1..];
  }

  // ---------------------------------------------------------------------
  // add_xml: manifest `data` list update

  /** `add_xml`'s manifest update: the file name is appended to the `data`
      list unless already there; a manifest without `data` is a `KeyError`,
      raised after the file itself has been written. */
  function AddXml(data: Option<seq<string>>, fname: string): (r: Result<seq<string>>)
    ensures r.Fail? <==> data.None?
    ensures r.Fail? ==> r.error == KeyError("data")
    ensures r.Ok? ==> fname in r.value && forall f :: f in r.value <==> f in data.value || f == fname
    ensures r.Ok? ==> |data.value| <= |r.value| && r.value[..|data.value|] == data.value
    ensures r.Ok? && fname in data.value ==> r.value == data.value
    ensures r.Ok? ==> NoDup(data.value) ==> NoDup(r.value)
  {
    match data
    case None => Fail(KeyError("data"))
    case Some(d) => Ok(if fname in d then d else d + [fname])
  }
}
