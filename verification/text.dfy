/** String helpers with the semantics of the Python `str` methods the
    system relies on: `split`, `join`, `startswith`, `strip`, `replace`,
    `str(int)` and `int(str)` on ASCII digits. */
module Text {

  import opened Base

  predicate IsDigit(c: char) { '0' <= c <= '9' }

  predicate IsUpper(c: char) { 'A' <= c <= 'Z' }

  predicate IsLower(c: char) { 'a' <= c <= 'z' }

  /** Python's `str.isspace` on the ASCII range. */
  predicate IsSpace(c: char)
  {
    c == ' ' || c == '\t' || c == '\n' || c == '\r' || c == '\U{0B}' || c == '\U{0C}'
  }

  predicate AllDigits(s: string)
  {
    forall i :: 0 <= i < |s| ==> IsDigit(s[i])
  }

  predicate NoDigit(s: string)
  {
    forall i :: 0 <= i < |s| ==> !IsDigit(s[i])
  }

  function ToLower(c: char): (r: char)
    ensures IsUpper(c) ==> IsLower(r)
    ensures !IsUpper(c) ==> r == c
  {
    if IsUpper(c) then (c as int + 32) as char else c
  }

  function ToUpper(c: char): (r: char)
    ensures IsLower(c) ==> IsUpper(r)
    ensures !IsLower(c) ==> r == c
  {
    if IsLower(c) then (c as int - 32) as char else c
  }

  predicate StartsWith(s: string, prefix: string)
  {
    |prefix| <= |s| && s[..|prefix|] == prefix
  }

  predicate EndsWith(s: string, suffix: string)
  {
    |suffix| <= |s| && s[|s| - |suffix|..] == suffix
  }

  /** `s.replace(a, b)` for single characters. */
  function ReplaceChar(s: string, a: char, b: char): (r: string)
    ensures |r| == |s|
    ensures forall i :: 0 <= i < |s| ==> r[i] == (if s[i] == a then b else s[i])
  {
    if |s| == 0 then "" else [if s[0] == a then b else s[0]] + ReplaceChar(s[1..], a, b)
  }

  /** First position of `c` in `s`, if any. */
  function IndexOf(s: string, c: char): (r: Option<nat>)
    ensures r.None? <==> c !in s
    ensures r.Some? ==> r.value < |s| && s[r.value] == c && c !in s[..r.value]
  {
    if |s| == 0 then None
    else if s[0] == c then Some(0)
    else match IndexOf(s[1..], c)
      case None => None
      case Some(k) => assert s[1..][..k] == s[1..k + 1]; Some(k + 1)
  }

  /** The first occurrence of `c` in `a + [c] + b`, when `a` has none, ends `a`. */
  lemma {:induction false} IndexOfAfter(a: string, c: char, b: string)
    requires c !in a
    ensures IndexOf(a + [c] + b, c) == Some(|a|)
    ensures SplitOnce(a + [c] + b, c) == Some((a, b))
    decreases |a|
  {
    var s := a + [c] + b;
    if |a| > 0 {
      assert s[1..] == a[1..] + [c] + b;
      assert a[0] in a;
      assert forall x :: x in a[1..] ==> x in a;
      IndexOfAfter(a[1..], c, b);
    }
    assert s[..|a|] == a && s[|a| + 1..] == b;
  }

  /** `sep.join(parts)`. */
  function Join(parts: seq<string>, sep: char): string
  {
    if |parts| == 0 then ""
    else if |parts| == 1 then parts[0]
    else parts[0] + [sep] + Join(parts[1..], sep)
  }

  /** Python's `s.split(sep)` for a one-character separator: never empty,
      and no piece contains the separator. */
  function Split(s: string, sep: char): (r: seq<string>)
    ensures |r| >= 1
    ensures forall i :: 0 <= i < |r| ==> sep !in r[i]
    ensures |r| == 1 <==> sep !in s
    decreases |s|
  {
    if |s| == 0 then [""]
    else
      var rest := Split(s[1..], sep);
      if s[0] == sep then [""] + rest
      else
        assert sep !in rest[0];
        [[s[0]] + rest[0]] + rest[1..]
  }

  lemma {:induction false} JoinSplit(s: string, sep: char)
    ensures Join(Split(s, sep), sep) == s
    decreases |s|
  {
    if |s| > 0 {
      var rest := Split(s[1..], sep);
      JoinSplit(s[1..], sep);
      if s[0] == sep {
        assert Split(s, sep) == [""] + rest;
        assert Join([""] + rest, sep) == "" + [sep] + Join(rest, sep) by {
          assert ([""] + rest)[1..] == rest;
        }
        assert s == [s[0]] + s[1..];
      } else {
        var p := [[s[0]] + rest[0]] + rest[1..];
        assert Split(s, sep) == p;
        if |rest| == 1 {
          assert Join(rest, sep) == rest[0];
        } else {
          assert p[1..] == rest[1..];
          assert Join(rest, sep) == rest[0] + [sep] + Join(rest[1..], sep);
        }
        assert s == [s[0]] + s[1..];
      }
    }
  }

  lemma {:induction false} SplitJoin(parts: seq<string>, sep: char)
    requires |parts| >= 1
    requires forall i :: 0 <= i < |parts| ==> sep !in parts[i]
    ensures Split(Join(parts, sep), sep) == parts
    decreases |parts|
  {
    if |parts| == 1 {
      SplitNoSep(parts[0], sep);
    } else {
      SplitJoin(parts[1..], sep);
      SplitCons(parts[0], Join(parts[1..], sep), sep);
      assert parts == [parts[0]] + parts[1..];
    }
  }

  /** Splitting `a + sep + b` with `sep` absent from `a` yields `a` first. */
  lemma {:induction false} SplitCons(a: string, b: string, sep: char)
    requires sep !in a
    ensures Split(a + [sep] + b, sep) == [a] + Split(b, sep)
    decreases |a|
  {
    var s := a + [sep] + b;
    if |a| == 0 {
      assert s[1..] == b;
    } else {
      assert s[1..] == a[1..] + [sep] + b;
      SplitCons(a[1..], b, sep);
      assert [a[0]] + a[1..] == a;
    }
  }

  lemma {:induction false} SplitNoSep(s: string, sep: char)
    requires sep !in s
    ensures Split(s, sep) == [s]
    decreases |s|
  {
    if |s| > 0 {
      SplitNoSep(s[1..], sep);
      assert [s[0]] + s[1..] == s;
    }
  }

  /** `s.split(sep, 1)` when `sep` occurs: the text before and after its
      first occurrence. */
  function SplitOnce(s: string, sep: char): (r: Option<(string, string)>)
    ensures r.None? <==> sep !in s
    ensures r.Some? ==> s == r.value.0 + [sep] + r.value.1 && sep !in r.value.0
  {
    match IndexOf(s, sep)
    case None => None
    case Some(k) =>
      assert s == s[..k] + [sep] + s[k + 1..];
      Some((s[..k], s[k + 1..]))
  }

  function StripLeft(s: string): (r: string)
    ensures |r| <= |s|
    ensures r == s[|s| - |r|..]
    ensures |r| > 0 ==> !IsSpace(r[0])
    ensures forall i :: 0 <= i < |s| - |r| ==> IsSpace(s[i])
  {
    if |s| > 0 && IsSpace(s[0]) then
      var r := StripLeft(s[1..]);
      assert s[1..][|s| - 1 - |r|..] == s[|s| - |r|..];
      assert forall i :: 1 <= i < |s| - |r| ==> s[i] == s[1..][i - 1];
      r
    else s
  }

  function StripRight(s: string): (r: string)
    ensures |r| <= |s|
    ensures r == s[..|r|]
    ensures |r| > 0 ==> !IsSpace(r[|r| - 1])
    ensures forall i :: |r| <= i < |s| ==> IsSpace(s[i])
  {
    if |s| > 0 && IsSpace(s[|s| - 1]) then
      var r := StripRight(s[..|s| - 1]);
      assert s[..|s| - 1][..|r|] == s[..|r|];
      assert forall i :: |r| <= i < |s| - 1 ==> s[i] == s[..|s| - 1][i];
      r
    else s
  }

  /** Python's `s.strip()`: leading and trailing whitespace removed. */
  function Strip(s: string): string
  {
    StripRight(StripLeft(s))
  }

  /** Trailing whitespace never survives a strip. */
  lemma {:induction false} StripTrailingSpace(s: string, c: char)
    requires IsSpace(c)
    ensures Strip(s + [c]) == Strip(s)
    decreases |s|
  {
    if |s| > 0 && IsSpace(s[0]) {
      assert (s + [c])[1..] == s[1..] + [c];
      StripTrailingSpace(s[1..], c);
    } else if |s| == 0 {
      assert StripLeft([c]) == StripLeft([c][1..]);
    } else {
      assert StripLeft(s + [c]) == s + [c];
      assert (s + [c])[..|s + [c]| - 1] == s;
    }
  }

  function DigitValue(c: char): nat
    requires IsDigit(c)
  {
    c as int - '0' as int
  }

  function DigitChar(d: nat): (c: char)
    requires d < 10
    ensures IsDigit(c) && DigitValue(c) == d
  {
    ('0' as int + d) as char
  }

  /** Python's `str(n)` for a natural number: decimal, no leading zero. */
  function NatToString(n: nat): (s: string)
    ensures |s| >= 1 && AllDigits(s)
    ensures |s| > 1 ==> s[0] != '0'
    decreases n
  {
    if n < 10 then [DigitChar(n)] else NatToString(n / 10) + [DigitChar(n % 10)]
  }

  /** Python's `str(i)` for an integer. */
  function IntToString(i: int): string
  {
    if i < 0 then "-" + NatToString(-i) else NatToString(i)
  }

  /** Python's `int(s)` for a string of ASCII digits. */
  function ParseNat(s: string): nat
    requires AllDigits(s)
  {
    if |s| == 0 then 0 else 10 * ParseNat(s[..|s| - 1]) + DigitValue(s[|s| - 1])
  }

  lemma {:induction false} ParseNatToString(n: nat)
    ensures ParseNat(NatToString(n)) == n
    decreases n
  {
    if n >= 10 {
      var s := NatToString(n);
      assert s[..|s| - 1] == NatToString(n / 10);
      ParseNatToString(n / 10);
    }
  }

  /** Different numbers render differently. */
  lemma NatToStringInjective(a: nat, b: nat)
    requires NatToString(a) == NatToString(b)
    ensures a == b
  {
    ParseNatToString(a);
    ParseNatToString(b);
  }

  /** Decimal width bound: numbers below 10^k render in at most k digits. */
  lemma {:induction false} NatToStringLength(n: nat, k: nat, bound: nat)
    requires bound == Pow10(k) && n < bound && k >= 1
    ensures |NatToString(n)| <= k
    decreases k
  {
    if k == 1 {
      assert Pow10(1) == 10;
    } else if n >= 10 {
      assert n / 10 < Pow10(k - 1);
      NatToStringLength(n / 10, k - 1, Pow10(k - 1));
    }
  }

  function Pow10(k: nat): (r: nat)
    ensures r >= 1
  {
    if k == 0 then 1 else 10 * Pow10(k - 1)
  }
}
