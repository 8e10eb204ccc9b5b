/** The request body the compiler service receives: PHP's `rawurlencode`
    (percent-encoding per section 2.1 of RFC 3986, every octet outside the
    unreserved set of section 2.3 written as `%` and two upper-case hex
    digits) and the `key=value&...` serialisation of the options. */
module FormEncoding {

  import opened Errors
  import opened Strings
  import opened CompilerOptions

  /** PHP strings are byte strings. */
  predicate IsByteString(s: string) {
    forall i :: 0 <= i < |s| ==> s[i] as int < 256
  }

  /** The unreserved characters of section 2.3 of RFC 3986. */
  predicate Unreserved(c: char) {
    ('A' <= c <= 'Z') || ('a' <= c <= 'z') || ('0' <= c <= '9') || c == '-' || c == '_' || c == '.' || c == '~'
  }

  function HexDigit(d: nat): char
    requires d < 16
  {
    "0123456789ABCDEF"[d]
  }

  predicate IsHexDigit(c: char) {
    ('0' <= c <= '9') || ('A' <= c <= 'F') || ('a' <= c <= 'f')
  }

  function HexValue(c: char): (d: nat)
    requires IsHexDigit(c)
    ensures d < 16
  {
    if '0' <= c <= '9' then c as int - '0' as int
    else if 'A' <= c <= 'F' then c as int - 'A' as int + 10
    else c as int - 'a' as int + 10
  }

  function EncodeChar(c: char): (r: string)
    requires c as int < 256
  {
    if Unreserved(c) then [c]
    else ['%', HexDigit(c as int / 16), HexDigit(c as int % 16)]
  }

  /** `rawurlencode`. */
  function RawUrlEncode(s: string): (r: string)
    requires IsByteString(s)
    decreases |s|
  {
    if |s| == 0 then "" else EncodeChar(s[0]) + RawUrlEncode(s[1..])
  }

  /** Percent-decoding: `%XY` with two hex digits is the octet XY, every
      other character stands for itself. */
  function PercentDecode(s: string): string
    decreases |s|
  {
    if |s| == 0 then ""
    else if |s| >= 3 && s[0] == '%' && IsHexDigit(s[1]) && IsHexDigit(s[2]) then
      [(HexValue(s[1]) * 16 + HexValue(s[2])) as char] + PercentDecode(s[3..])
    else [s[0]] + PercentDecode(s[1..])
  }

  /** The characters an encoded value can contain. */
  predicate EncodedChar(c: char) {
    Unreserved(c) || c == '%'
  }

  lemma HexDigitValue(d: nat)
    requires d < 16
    ensures IsHexDigit(HexDigit(d)) && HexValue(HexDigit(d)) == d
  {
    var t := "0123456789ABCDEF";
    assert t[d] as int == if d < 10 then '0' as int + d else 'A' as int + (d - 10);
  }

  /** Decoding the encoding of one octet in front of any text yields that
      octet in front of the decoded text. */
  lemma DecodeEncodedChar(c: char, rest: string)
    requires c as int < 256
    ensures PercentDecode(EncodeChar(c) + rest) == [c] + PercentDecode(rest)
  {
    var e := EncodeChar(c) + rest;
    if Unreserved(c) {
      assert e[0] == c && e[1..] == rest;
    } else {
      var hi, lo := c as int / 16, c as int % 16;
      HexDigitValue(hi);
      HexDigitValue(lo);
      assert e[0] == '%' && e[1] == HexDigit(hi) && e[2] == HexDigit(lo) && e[3..] == rest;
      assert hi * 16 + lo == c as int;
    }
  }

  /** Decoding an encoded value gives the value back. */
  lemma {:induction false} DecodeEncode(s: string)
    requires IsByteString(s)
    ensures PercentDecode(RawUrlEncode(s)) == s
    decreases |s|
  {
    if |s| > 0 {
      DecodeEncode(s[1..]);
      DecodeEncodedChar(s[0], RawUrlEncode(s[1..]));
      assert s == [s[0]] + s[1..];
    }
  }

  /** An encoded value uses only unreserved characters and `%`; in
      particular it never holds a raw `&` or `=`. */
  lemma {:induction false} EncodedAlphabet(s: string)
    requires IsByteString(s)
    ensures forall i :: 0 <= i < |RawUrlEncode(s)| ==> EncodedChar(RawUrlEncode(s)[i])
    ensures '&' !in RawUrlEncode(s) && '=' !in RawUrlEncode(s)
    decreases |s|
  {
    if |s| > 0 {
      EncodedAlphabet(s[1..]);
      EncodeCharAlphabet(s[0]);
      AlphabetAppend(EncodeChar(s[0]), RawUrlEncode(s[1..]));
    }
  }

  lemma EncodeCharAlphabet(c: char)
    requires c as int < 256
    ensures forall i :: 0 <= i < |EncodeChar(c)| ==> EncodedChar(EncodeChar(c)[i])
  {
    if !Unreserved(c) {
      HexDigitValue(c as int / 16);
      HexDigitValue(c as int % 16);
    }
  }

  lemma AlphabetAppend(a: string, b: string)
    requires forall i :: 0 <= i < |a| ==> EncodedChar(a[i])
    requires forall i :: 0 <= i < |b| ==> EncodedChar(b[i])
    ensures forall i :: 0 <= i < |a + b| ==> EncodedChar((a + b)[i])
  {
    forall i | 0 <= i < |a + b| ensures EncodedChar((a + b)[i]) {
      if i >= |a| { assert (a + b)[i] == b[i - |a|]; }
    }
  }

  predicate ByteOptions(opts: Options) {
    forall i :: 0 <= i < |opts| ==> ByteOption(opts[i].0, opts[i].1)
  }

  predicate BytePairs(ps: seq<(string, string)>) {
    forall i :: 0 <= i < |ps| ==> IsByteString(ps[i].1)
  }

  lemma PairsAreBytes(opts: Options)
    requires ByteOptions(opts)
    ensures BytePairs(Pairs(opts))
    decreases |opts|
  {
    if |opts| > 0 {
      assert ByteOptions(opts[1..]) by {
        forall i | 0 <= i < |opts| - 1 ensures opts[1..][i] == opts[i + 1] { }
      }
      PairsAreBytes(opts[1..]);
    }
  }

  /** An option whose key and every value are byte strings. */
  predicate ByteOption(key: string, value: OptionValue) {
    IsByteString(key) && forall j :: 0 <= j < |Values(value)| ==> IsByteString(Values(value)[j])
  }

  /** Assigning a byte-string option keeps the options encodable. */
  lemma AssignKeepsBytes(opts: Options, key: string, value: OptionValue)
    requires DistinctKeys(opts) && ByteOptions(opts) && ByteOption(key, value)
    ensures ByteOptions(Assign(opts, key, value))
  {
    var r := Assign(opts, key, value);
    if key !in Keys(opts) {
      forall i | 0 <= i < |r| ensures ByteOption(r[i].0, r[i].1) {
        if i < |opts| {
          assert r[i] == opts[i];
        }
      }
    }
  }

  /** `array_merge` of encodable options is encodable. */
  lemma {:induction false} MergeKeepsBytes(opts: Options, extra: Options)
    requires DistinctKeys(opts) && ByteOptions(opts) && ByteOptions(extra)
    ensures ByteOptions(Merge(opts, extra))
    decreases |extra|
  {
    if |extra| > 0 {
      AssignKeepsBytes(opts, extra[0].0, extra[0].1);
      assert ByteOptions(extra[1..]) by {
        forall i | 0 <= i < |extra| - 1 ensures extra[1..][i] == extra[i + 1] { }
      }
      MergeKeepsBytes(Assign(opts, extra[0].0, extra[0].1), extra[1..]);
    }
  }

  /** One `key=encoded-value` field. */
  function Field(key: string, value: string): string
    requires IsByteString(value)
  {
    key + "=" + RawUrlEncode(value)
  }

  /** The fields, each followed by `&`, as the source's loop accumulates them. */
  function Accumulate(pairs: seq<(string, string)>): string
    requires BytePairs(pairs)
    decreases |pairs|
  {
    if |pairs| == 0 then "" else Field(pairs[0].0, pairs[0].1) + "&" + Accumulate(pairs[1..])
  }

  /** PHP `trim(s, c)` for one character. */
  function TrimChar(s: string, c: char): string
    decreases |s|
  {
    if |s| > 0 && s[0] == c then TrimChar(s[1..], c)
    else if |s| > 0 && s[|s| - 1] == c then TrimChar(s[..|s| - 1], c)
    else s
  }

  /** The POST body: `trim(accumulated, '&')`. */
  function FormBody(opts: Options): string
    requires ByteOptions(opts)
  {
    PairsAreBytes(opts);
    TrimChar(Accumulate(Pairs(opts)), '&')
  }

  function Fields(pairs: seq<(string, string)>): (r: seq<string>)
    requires BytePairs(pairs)
    ensures |r| == |pairs|
    ensures forall i :: 0 <= i < |pairs| ==> r[i] == Field(pairs[i].0, pairs[i].1)
  {
    seq(|pairs|, i requires 0 <= i < |pairs| => Field(pairs[i].0, pairs[i].1))
  }

  /** A key that survives the round trip: non-empty, free of `&` and `=`. */
  predicate PlainKey(k: string) {
    |k| > 0 && '&' !in k && '=' !in k
  }

  /** With plain keys the body is the fields joined by single `&`s: no
      leading or trailing `&`, nothing else removed. */
  lemma FormBodyIsJoin(opts: Options)
    requires ByteOptions(opts)
    requires forall i :: 0 <= i < |opts| ==> PlainKey(opts[i].0)
    ensures BytePairs(Pairs(opts)) && FormBody(opts) == Join(Fields(Pairs(opts)), '&')
  {
    PairsAreBytes(opts);
    PairKeysPlain(opts);
    TrimmedAccumulate(Pairs(opts));
  }

  lemma TrimmedAccumulate(ps: seq<(string, string)>)
    requires BytePairs(ps)
    requires forall i :: 0 <= i < |ps| ==> PlainKey(ps[i].0)
    ensures TrimChar(Accumulate(ps), '&') == Join(Fields(ps), '&')
  {
    AccumulateIsJoin(ps);
    if |ps| > 0 {
      TrimFields(ps);
    } else {
      assert Accumulate(ps) == "";
    }
  }

  lemma TrimFields(ps: seq<(string, string)>)
    requires |ps| > 0 && BytePairs(ps)
    requires forall i :: 0 <= i < |ps| ==> PlainKey(ps[i].0)
    ensures TrimChar(Join(Fields(ps), '&') + "&", '&') == Join(Fields(ps), '&')
  {
    var fs := Fields(ps);
    FieldStartsWithKey(ps[0].0, ps[0].1);
    var last := ps[|ps| - 1];
    FieldEndsPlain(last.0, last.1);
    TrimJoin(fs, '&');
  }

  /** Joined fields followed by one separator lose exactly that separator
      under `trim` when the first field does not start, and the last does not
      end, with it. */
  lemma TrimJoin(fs: seq<string>, sep: char)
    requires |fs| > 0 && |fs[0]| > 0 && fs[0][0] != sep
    requires |fs[|fs| - 1]| > 0 && fs[|fs| - 1][|fs[|fs| - 1]| - 1] != sep
    ensures TrimChar(Join(fs, sep) + [sep], sep) == Join(fs, sep)
  {
    JoinStartsWithFirst(fs, sep);
    JoinEndsWithLast(fs, sep);
    TrimOnce(Join(fs, sep), sep);
  }

  lemma FieldStartsWithKey(k: string, v: string)
    requires PlainKey(k) && IsByteString(v)
    ensures |Field(k, v)| > 0 && Field(k, v)[0] == k[0] && k[0] != '&'
  {
  }

  lemma FieldEndsPlain(k: string, v: string)
    requires IsByteString(v)
    ensures |Field(k, v)| > 0 && Field(k, v)[|Field(k, v)| - 1] != '&'
  {
    var e := RawUrlEncode(v);
    EncodedAlphabet(v);
    if |e| > 0 {
      assert Field(k, v)[|Field(k, v)| - 1] == e[|e| - 1];
    } else {
      assert Field(k, v) == k + "=";
    }
  }

  lemma PairKeysPlain(opts: Options)
    requires forall i :: 0 <= i < |opts| ==> PlainKey(opts[i].0)
    ensures forall i :: 0 <= i < |Pairs(opts)| ==> PlainKey(Pairs(opts)[i].0)
    decreases |opts|
  {
    if |opts| > 0 {
      PairKeysPlain(opts[1..]);
    }
  }

  lemma {:induction false} AccumulateIsJoin(ps: seq<(string, string)>)
    requires BytePairs(ps)
    ensures Accumulate(ps) == if |ps| == 0 then "" else Join(Fields(ps), '&') + "&"
    decreases |ps|
  {
    if |ps| > 1 {
      AccumulateIsJoin(ps[1..]);
      assert Fields(ps)[1..] == Fields(ps[1..]);
    } else if |ps| == 1 {
      assert Accumulate(ps[1..]) == "";
    }
  }

  lemma JoinStartsWithFirst(xs: seq<string>, sep: char)
    requires |xs| > 0 && |xs[0]| > 0
    ensures |Join(xs, sep)| > 0 && Join(xs, sep)[0] == xs[0][0]
  {
  }

  lemma {:induction false} JoinEndsWithLast(xs: seq<string>, sep: char)
    requires |xs| > 0 && |xs[|xs| - 1]| > 0
    ensures |Join(xs, sep)| > 0 && Join(xs, sep)[|Join(xs, sep)| - 1] == xs[|xs| - 1][|xs[|xs| - 1]| - 1]
    decreases |xs|
  {
    if |xs| > 1 {
      JoinEndsWithLast(xs[1..], sep);
    }
  }

  /** `trim(j + c, c)` is `j` when `j` neither starts nor ends with `c`. */
  lemma TrimOnce(j: string, c: char)
    requires |j| > 0 && j[0] != c && j[|j| - 1] != c
    ensures TrimChar(j + [c], c) == j
  {
    assert (j + [c])[..|j|] == j;
  }

  /** How the service reads the body back: split on `&`, each field on its
      first `=`, and percent-decode the value. */
  function ParseBody(body: string): seq<(string, string)> {
    if body == "" then []
    else
      var fields := Split(body, '&');
      seq(|fields|, i requires 0 <= i < |fields| =>
        match IndexOf(fields[i], '=')
        case None => (fields[i], "")
        case Some(e) => (fields[i][..e], PercentDecode(fields[i][e + 1..])))
  }

  /** Round trip of the request body: reading it back yields every
      (key, value) pair in option order, list values expanded in place. */
  lemma FormBodyRoundTrip(opts: Options)
    requires ByteOptions(opts)
    requires forall i :: 0 <= i < |opts| ==> PlainKey(opts[i].0)
    ensures ParseBody(FormBody(opts)) == Pairs(opts)
  {
    FormBodyIsJoin(opts);
    PairKeysPlain(opts);
    JoinedFieldsRoundTrip(Pairs(opts));
  }

  /** Splitting the joined fields and reading each one back gives the pairs. */
  lemma JoinedFieldsRoundTrip(ps: seq<(string, string)>)
    requires BytePairs(ps)
    requires forall i :: 0 <= i < |ps| ==> PlainKey(ps[i].0)
    ensures ParseBody(Join(Fields(ps), '&')) == ps
  {
    var fs := Fields(ps);
    if |ps| > 0 {
      forall i | 0 <= i < |fs| ensures '&' !in fs[i] {
        EncodedAlphabet(ps[i].1);
      }
      SplitJoin(fs, '&');
      assert Join(fs, '&') != "" by { JoinStartsWithFirst(fs, '&'); }
      var parsed := ParseBody(Join(fs, '&'));
      forall i | 0 <= i < |ps| ensures parsed[i] == ps[i] {
        FieldRoundTrip(ps[i].0, ps[i].1);
      }
    }
  }

  lemma FieldRoundTrip(k: string, v: string)
    requires PlainKey(k) && IsByteString(v)
    ensures IndexOf(Field(k, v), '=') == Some(|k|)
    ensures Field(k, v)[..|k|] == k && PercentDecode(Field(k, v)[|k| + 1..]) == v
  {
    var f := Field(k, v);
    assert f[..|k|] == k;
    assert f[|k|] == '=';
    assert f[|k| + 1..] == RawUrlEncode(v);
    assert f == k + ("=" + RawUrlEncode(v));
    IndexOfAfter(k, "=" + RawUrlEncode(v), '=');
    DecodeEncode(v);
  }
}
