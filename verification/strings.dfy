/** Small string vocabulary shared by the model: suffix tests, character
    classes of the PCRE patterns in the source, PHP's `trim`, `str_replace`
    on single characters, and the decimal rendering PHP uses when an integer
    is concatenated to a string. */
module Strings {

  import opened Errors

  predicate EndsWith(s: string, suffix: string) {
    |suffix| <= |s| && s[|s| - |suffix|..] == suffix
  }

  /** `n` spaces, as produced by `str_repeat(' ', n)`. */
  function Spaces(n: nat): (r: string)
    ensures |r| == n
    ensures forall i :: 0 <= i < n ==> r[i] == ' '
  {
    seq(n, _ => ' ')
  }

  /** PHP `empty()` on a string: `""` and `"0"` are empty. */
  predicate PhpEmpty(s: string) {
    s == "" || s == "0"
  }

  predicate NoTabs(s: string) {
    forall i :: 0 <= i < |s| ==> s[i] != '\t'
  }

  /** `str_replace(from, to, s)` for single characters. */
  function ReplaceChar(s: string, from: char, to: char): (r: string)
    ensures |r| == |s|
    ensures forall i :: 0 <= i < |s| ==> r[i] == (if s[i] == from then to else s[i])
  {
    seq(|s|, i requires 0 <= i < |s| => if s[i] == from then to else s[i])
  }

  /** Position of the first `c` in `s` (`strpos`). */
  function IndexOf(s: string, c: char): (r: Option<nat>)
    ensures r.Some? ==> r.value < |s| && s[r.value] == c && c !in s[..r.value]
    ensures r.None? <==> c !in s
  {
    if |s| == 0 then None
    else if s[0] == c then Some(0)
    else match IndexOf(s[1..], c)
      case None => None
      case Some(k) => assert s[..k + 1] == [s[0]] + s[1..][..k]; Some(k + 1)
  }

  /** Position of the last `c` in `s` (`strrpos`). */
  function LastIndexOf(s: string, c: char): (r: Option<nat>)
    ensures r.Some? ==> r.value < |s| && s[r.value] == c && c !in s[r.value + 1..]
    ensures r.None? <==> c !in s
  {
    if |s| == 0 then None
    else if s[|s| - 1] == c then Some(|s| - 1)
    else
      var r := LastIndexOf(s[..|s| - 1], c);
      assert r.Some? ==> s[r.value + 1..] == s[..|s| - 1][r.value + 1..] + [s[|s| - 1]];
      assert r.None? ==> s == s[..|s| - 1] + [s[|s| - 1]];
      r
  }

  predicate IsDigit(c: char) {
    '0' <= c <= '9'
  }

  predicate IsUpper(c: char) {
    'A' <= c <= 'Z'
  }

  /** PCRE `\w` in the C locale. */
  predicate IsWordChar(c: char) {
    IsDigit(c) || IsUpper(c) || ('a' <= c <= 'z') || c == '_'
  }

  /** The characters PHP's `trim` removes by default. */
  predicate IsTrimChar(c: char) {
    c == ' ' || c == '\t' || c == '\n' || c == '\r' || c == 0 as char || c == 11 as char
  }

  function TrimLeft(s: string): (r: string)
    ensures |r| <= |s| && r == s[|s| - |r|..]
    ensures forall i :: 0 <= i < |s| - |r| ==> IsTrimChar(s[i])
    ensures r == [] || !IsTrimChar(r[0])
  {
    if |s| > 0 && IsTrimChar(s[0]) then TrimLeft(s[1..]) else s
  }

  function TrimRight(s: string): (r: string)
    ensures |r| <= |s| && r == s[..|r|]
    ensures forall i :: |r| <= i < |s| ==> IsTrimChar(s[i])
    ensures r == [] || !IsTrimChar(r[|r| - 1])
  {
    if |s| > 0 && IsTrimChar(s[|s| - 1]) then TrimRight(s[..|s| - 1]) else s
  }

  /** `r` is the part of `s` between a run of trim characters at the front
      and one at the back, and starts and ends with neither: every trim
      character at either end of `s` is gone. */
  predicate IsTrimOf(s: string, r: string) {
    (r == [] || (!IsTrimChar(r[0]) && !IsTrimChar(r[|r| - 1])))
    && exists a :: 0 <= a <= |s| && TrimmedAt(s, r, a)
  }

  /** `r` stands at offset `a` of `s`, with only trim characters around it. */
  predicate TrimmedAt(s: string, r: string, a: int) {
    0 <= a <= |s| - |r| && r == s[a..a + |r|]
    && (forall i :: 0 <= i < a ==> IsTrimChar(s[i]))
    && (forall i :: a + |r| <= i < |s| ==> IsTrimChar(s[i]))
  }

  /** PHP `trim` with its default character list. */
  function Trim(s: string): (r: string)
    ensures IsTrimOf(s, r)
  {
    var l := TrimLeft(s);
    var r := TrimRight(l);
    TrimBothEnds(s, l, r);
    r
  }

  /** A left trim followed by a right trim leaves a middle part. */
  lemma TrimBothEnds(s: string, l: string, r: string)
    requires |l| <= |s| && l == s[|s| - |l|..] && forall i :: 0 <= i < |s| - |l| ==> IsTrimChar(s[i])
    requires |r| <= |l| && r == l[..|r|] && forall i :: |r| <= i < |l| ==> IsTrimChar(l[i])
    ensures TrimmedAt(s, r, |s| - |l|)
  {
    var a := |s| - |l|;
    assert r == s[a..a + |r|];
    forall i | a + |r| <= i < |s| ensures IsTrimChar(s[i]) {
      assert s[i] == l[i - a];
    }
  }

  /** At most one string is a trim of `s`. */
  lemma TrimOfUnique(s: string, r: string, r': string)
    requires IsTrimOf(s, r) && IsTrimOf(s, r')
    ensures r == r'
  {
    var a :| TrimmedAt(s, r, a);
    var a' :| TrimmedAt(s, r', a');
    assert TrimmedAt(s, r, a) && TrimmedAt(s, r', a');
    if r != [] && r' != [] {
      assert r[0] == s[a] && r'[0] == s[a'];
      assert r[|r| - 1] == s[a + |r| - 1] && r'[|r'| - 1] == s[a' + |r'| - 1];
    }
  }

  /** `trim` gives exactly the trim of its argument. */
  lemma TrimCharacterised(s: string, r: string)
    ensures IsTrimOf(s, r) <==> r == Trim(s)
  {
    if IsTrimOf(s, r) {
      TrimOfUnique(s, r, Trim(s));
    }
  }

  function DigitChar(d: nat): (c: char)
    requires d < 10
    ensures IsDigit(c)
    ensures c as int - '0' as int == d
  {
    ('0' as int + d) as char
  }

  /** The number a string of decimal digits stands for, read left to right. */
  function DecimalValue(s: string): nat
    requires forall i :: 0 <= i < |s| ==> IsDigit(s[i])
  {
    if |s| == 0 then 0
    else
      assert IsDigit(s[|s| - 1]);
      DecimalValue(s[..|s| - 1]) * 10 + (s[|s| - 1] as int - '0' as int)
  }

  /** Decimal digits of `n`, no leading zero. */
  function NatToString(n: nat): (r: string)
    ensures |r| > 0
    ensures forall i :: 0 <= i < |r| ==> IsDigit(r[i])
    ensures |r| > 1 ==> r[0] != '0'
  {
    if n < 10 then [DigitChar(n)] else NatToString(n / 10) + [DigitChar(n % 10)]
  }

  /** The decimal digits read back as the number. */
  lemma {:induction false} NatToStringValue(n: nat)
    ensures DecimalValue(NatToString(n)) == n
  {
    if n >= 10 {
      var r := NatToString(n);
      assert r[..|r| - 1] == NatToString(n / 10);
      NatToStringValue(n / 10);
    }
  }

  /** The text PHP produces when an integer is concatenated to a string: a
      minus sign for a negative number, then the digits of its magnitude. */
  function IntToString(i: int): (r: string)
    ensures |r| > 0
    ensures i < 0 <==> r[0] == '-'
  {
    if i < 0 then "-" + NatToString(-i) else NatToString(i)
  }

  /** The digits after the optional minus sign read back as the magnitude. */
  lemma IntToStringValue(i: int)
    ensures var r := IntToString(i);
      if i < 0 then |r| > 1 && (forall j :: 1 <= j < |r| ==> IsDigit(r[j])) && DecimalValue(r[1..]) == -i
      else (forall j :: 0 <= j < |r| ==> IsDigit(r[j])) && DecimalValue(r) == i
  {
    if i < 0 {
      assert IntToString(i)[1..] == NatToString(-i);
      NatToStringValue(-i);
    } else {
      NatToStringValue(i);
    }
  }

  /** The parts of `xs` joined by the single separator `sep`. */
  function Join(xs: seq<string>, sep: char): string {
    if |xs| == 0 then ""
    else if |xs| == 1 then xs[0]
    else xs[0] + [sep] + Join(xs[1..], sep)
  }

  /** `explode(sep, s)`: the maximal `sep`-free pieces of `s`, in order. */
  function Split(s: string, sep: char): (r: seq<string>)
    ensures |r| > 0
    decreases |s|
  {
    match IndexOf(s, sep)
    case None => [s]
    case Some(i) => [s[..i]] + Split(s[i + 1..], sep)
  }

  /** Splitting undoes joining as long as no part contains the separator. */
  lemma {:induction false} SplitJoin(xs: seq<string>, sep: char)
    requires |xs| > 0
    requires forall i :: 0 <= i < |xs| ==> sep !in xs[i]
    ensures Split(Join(xs, sep), sep) == xs
  {
    if |xs| > 1 {
      SplitCons(xs[0], Join(xs[1..], sep), sep);
      assert forall i :: 0 <= i < |xs[1..]| ==> sep !in xs[1..][i];
      SplitJoin(xs[1..], sep);
      assert xs == [xs[0]] + xs[1..];
    } else {
      assert sep !in xs[0];
    }
  }

  /** A separator-free first piece is split off on its own. */
  lemma SplitCons(x: string, rest: string, sep: char)
    requires sep !in x
    ensures Split(x + [sep] + rest, sep) == [x] + Split(rest, sep)
  {
    var j := x + ([sep] + rest);
    assert x + [sep] + rest == j;
    IndexOfAfter(x, [sep] + rest, sep);
    assert IndexOf([sep] + rest, sep) == Some(0);
    assert j[..|x|] == x;
    assert j[|x| + 1..] == rest;
  }

  /** Searching past a prefix that lacks the character. */
  lemma IndexOfAfter(a: string, b: string, c: char)
    requires c !in a
    ensures IndexOf(a + b, c) == match IndexOf(b, c) case None => None case Some(i) => Some(|a| + i)
  {
    match IndexOf(b, c)
    case None =>
      assert c !in a + b;
    case Some(i) =>
      assert (a + b)[..|a| + i] == a + b[..i];
      IndexOfUnique(a + b, c, |a| + i);
  }

  /** The first occurrence is the only position holding `c` with no `c`
      before it. */
  lemma IndexOfUnique(s: string, c: char, v: nat)
    requires v < |s| && s[v] == c && c !in s[..v]
    ensures IndexOf(s, c) == Some(v)
  {
    assert c in s;
    var w := IndexOf(s, c).value;
    assert forall k :: 0 <= k < w ==> s[..w][k] == s[k];
    assert forall k :: 0 <= k < v ==> s[..v][k] == s[k];
  }
}
