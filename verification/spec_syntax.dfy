/** The `MODEL:VALUE[;MODEL:VALUE…]` command-line syntax shared by the field
    selection and the file dispatch options: the string is cut at `;`,
    empty segments are skipped, a segment is unpacked as
    `model, value = segment.split(':')` when it has a colon, and a later
    segment for a model replaces an earlier one. */
module SpecSyntax {

  import opened Base
  import opened Text

  /** `model, value = seg.split(':')` for a segment with a colon (the model
      is then given), and the whole segment as value for one without. More
      than one colon leaves too many values to unpack. */
  function Segment(seg: string): (r: Result<(Option<string>, string)>)
    ensures ':' !in seg ==> r == Ok((None, seg))
    ensures ':' in seg ==>
              var (head, tail) := SplitOnce(seg, ':').value;
              && (':' !in tail ==> r == Ok((Some(head), tail)))
              && (':' in tail ==> r == Fail(ValueError("too many values to unpack")))
  {
    if ':' !in seg then Ok((None, seg))
    else
      var parts := Split(seg, ':');
      SegmentParts(seg);
      if |parts| == 2 then Ok((Some(parts[0]), parts[1]))
      else Fail(ValueError("too many values to unpack"))
  }

  /** A segment with a colon splits into the text before its first colon
      and the pieces of the rest. */
  lemma SegmentParts(seg: string)
    requires ':' in seg
    ensures var (head, tail) := SplitOnce(seg, ':').value;
            && Split(seg, ':') == [head] + Split(tail, ':')
            && (|Split(seg, ':')| == 2 <==> ':' !in tail)
            && (':' !in tail ==> Split(seg, ':') == [head, tail])
  {
    var (head, tail) := SplitOnce(seg, ':').value;
    SplitCons(head, tail, ':');
    if ':' !in tail {
      SplitNoSep(tail, ':');
    }
  }

  /** The segments in order, each read by `parse` into a model and its
      value; empty segments are skipped and the first failing one is the
      error. */
  function Specs<K, V>(segs: seq<string>, parse: string -> Result<(K, V)>): (r: Result<map<K, V>>)
    decreases |segs|
  {
    if |segs| == 0 then Ok(map[])
    else
      match Specs(segs[..|segs| - 1], parse)
      case Fail(e) => Fail(e)
      case Ok(m) =>
        var seg := segs[|segs| - 1];
        if seg == "" then Ok(m)
        else
          match parse(seg)
          case Fail(e) => Fail(e)
          case Ok(kv) => Ok(m[kv.0 := kv.1])
  }

  /** Parsing fails exactly when a non-empty segment does, and then with
      the error of the first such segment. */
  lemma {:induction false} SpecsFail<K, V>(segs: seq<string>, parse: string -> Result<(K, V)>)
    ensures Specs(segs, parse).Fail? <==> exists i :: 0 <= i < |segs| && segs[i] != "" && parse(segs[i]).Fail?
    ensures Specs(segs, parse).Fail? ==>
              exists i :: 0 <= i < |segs| && segs[i] != "" && parse(segs[i]) == Fail(Specs(segs, parse).error)
    decreases |segs|
  {
    if |segs| > 0 {
      var init := segs[..|segs| - 1];
      SpecsFail(init, parse);
      assert forall i :: 0 <= i < |init| ==> init[i] == segs[i];
      if exists i :: 0 <= i < |segs| && segs[i] != "" && parse(segs[i]).Fail? {
        var i :| 0 <= i < |segs| && segs[i] != "" && parse(segs[i]).Fail?;
        if i < |init| {
          assert init[i] != "" && parse(init[i]).Fail?;
        }
      }
    }
  }

  /** Segment `i` is non-empty and reads as an entry for model `k`. */
  ghost predicate About<K, V>(segs: seq<string>, parse: string -> Result<(K, V)>, k: K, i: int)
  {
    0 <= i < |segs| && segs[i] != "" && parse(segs[i]).Ok? && parse(segs[i]).value.0 == k
  }

  /** Segment `i` is the last non-empty segment about model `k`. */
  ghost predicate LastFor<K, V>(segs: seq<string>, parse: string -> Result<(K, V)>, k: K, i: int)
  {
    && About(segs, parse, k, i)
    && forall j :: i < j < |segs| ==> !About(segs, parse, k, j)
  }

  /** A parsed spec holds a model exactly when a non-empty segment is
      about it, and then the value of the last such segment: a later
      segment replaces an earlier one whole. */
  lemma SpecsLast<K, V>(segs: seq<string>, parse: string -> Result<(K, V)>, k: K)
    requires Specs(segs, parse).Ok?
    ensures var m := Specs(segs, parse).value;
            && (k in m <==> exists i :: About(segs, parse, k, i))
            && (forall i :: LastFor(segs, parse, k, i) ==> k in m && m[k] == parse(segs[i]).value.1)
  {
    SpecsKeys(segs, parse, k);
    SpecsValue(segs, parse, k);
  }

  lemma {:induction false} SpecsKeys<K, V>(segs: seq<string>, parse: string -> Result<(K, V)>, k: K)
    requires Specs(segs, parse).Ok?
    ensures k in Specs(segs, parse).value <==> exists i :: About(segs, parse, k, i)
    decreases |segs|
  {
    if |segs| > 0 {
      var n := |segs| - 1;
      var init := segs[..n];
      assert Specs(init, parse).Ok?;
      SpecsKeys(init, parse, k);
      var m := Specs(segs, parse).value;
      var m0 := Specs(init, parse).value;
      if !About(segs, parse, k, n) {
        assert k in m <==> k in m0;
        if k in m {
          var i :| About(init, parse, k, i);
          assert About(segs, parse, k, i);
        }
        if exists i :: About(segs, parse, k, i) {
          var i :| About(segs, parse, k, i);
          assert About(init, parse, k, i);
        }
      }
    }
  }

  lemma {:induction false} SpecsValue<K, V>(segs: seq<string>, parse: string -> Result<(K, V)>, k: K)
    requires Specs(segs, parse).Ok?
    ensures forall i :: LastFor(segs, parse, k, i) ==>
              k in Specs(segs, parse).value && Specs(segs, parse).value[k] == parse(segs[i]).value.1
    decreases |segs|
  {
    if |segs| > 0 {
      var n := |segs| - 1;
      var init := segs[..n];
      assert Specs(init, parse).Ok?;
      SpecsValue(init, parse, k);
      var m := Specs(segs, parse).value;
      var m0 := Specs(init, parse).value;
      if About(segs, parse, k, n) {
        assert m == m0[k := parse(segs[n]).value.1];
        forall i | LastFor(segs, parse, k, i) ensures i == n {}
      } else {
        assert k in m0 ==> k in m && m[k] == m0[k];
        forall i | LastFor(segs, parse, k, i) ensures LastFor(init, parse, k, i) {
          assert init[i] == segs[i];
          forall j | i < j < n ensures !About(init, parse, k, j) {
            assert !About(segs, parse, k, j);
            assert init[j] == segs[j];
          }
        }
      }
    }
  }

  /** A segment `model:value` with a single colon names `model`. */
  lemma SegmentNamed(model: string, value: string)
    requires ':' !in model && ':' !in value
    ensures Segment(model + ":" + value) == Ok((Some(model), value))
  {
    IndexOfAfter(model, ':', value);
    assert model + ":" + value == model + [':'] + value;
  }

  /** One more non-empty segment that reads well adds its entry. */
  lemma SpecsSnoc<K, V>(init: seq<string>, seg: string, parse: string -> Result<(K, V)>)
    requires Specs(init, parse).Ok? && seg != "" && parse(seg).Ok?
    ensures Specs(init + [seg], parse) == Ok(Specs(init, parse).value[parse(seg).value.0 := parse(seg).value.1])
  {
    assert (init + [seg])[..|init|] == init;
  }

  /** Two non-empty segments, read in order. */
  lemma SpecsPair<K, V>(a: string, b: string, parse: string -> Result<(K, V)>)
    requires ';' !in a && ';' !in b && a != "" && b != ""
    requires parse(a).Ok? && parse(b).Ok?
    ensures Specs(Split(a + ";" + b, ';'), parse) ==
              Ok(map[parse(a).value.0 := parse(a).value.1][parse(b).value.0 := parse(b).value.1])
  {
    assert a + ";" + b == a + [';'] + b;
    SplitCons(a, b, ';');
    SplitNoSep(b, ';');
    assert Split(a + ";" + b, ';') == [] + [a] + [b];
    SpecsSnoc([], a, parse);
    SpecsSnoc([] + [a], b, parse);
  }

  /** A single non-empty segment. */
  lemma SpecsSingle<K, V>(a: string, parse: string -> Result<(K, V)>)
    requires ';' !in a && a != "" && parse(a).Ok?
    ensures Specs(Split(a, ';'), parse) == Ok(map[parse(a).value.0 := parse(a).value.1])
  {
    SplitNoSep(a, ';');
    assert Split(a, ';') == [] + [a];
    SpecsSnoc([], a, parse);
  }

  /** The empty string is one empty segment: no model at all. */
  lemma SpecsOfEmpty<K, V>(cli: string, parse: string -> Result<(K, V)>)
    requires cli == ""
    ensures Specs(Split(cli, ';'), parse) == Ok(map[])
  {
    assert Split(cli, ';') == [""];
    assert [""][..0] == [];
  }
}
