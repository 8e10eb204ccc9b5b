/** POSIX shell quoting as done by PHP's `escapeshellarg` on Unix: the
    argument is put in single quotes and every single quote inside it is
    written `'\''` (close the quote, an escaped quote, reopen). A byte that
    the current locale does not accept as the start of a character is
    skipped; the locale modelled is the C locale. */
module Shell {

  import opened Errors

  function QuoteBody(s: string): string
    decreases |s|
  {
    if |s| == 0 then ""
    else (if s[0] == '\'' then "'\\''" else [s[0]]) + QuoteBody(s[1..])
  }

  /** Under the C locale `mblen` accepts exactly the bytes below 128. */
  predicate LocaleKeeps(c: char) {
    c as int < 128
  }

  /** The characters `escapeshellarg` keeps, in order: it skips every byte
      `mblen` rejects. */
  function Kept(s: string): (k: string)
    ensures |k| <= |s|
    ensures forall c :: c in k <==> c in s && LocaleKeeps(c)
    decreases |s|
  {
    if |s| == 0 then "" else (if LocaleKeeps(s[0]) then [s[0]] else []) + Kept(s[1..])
  }

  /** One character is kept exactly when the locale accepts it. */
  lemma KeptChar(c: char)
    ensures Kept([c]) == if LocaleKeeps(c) then [c] else []
  {
    assert [c][1..] == [];
  }

  /** Skipping distributes over concatenation: the kept characters keep
      their order and their multiplicity. */
  lemma {:induction false} KeptAppend(a: string, b: string)
    ensures Kept(a + b) == Kept(a) + Kept(b)
    decreases |a|
  {
    if |a| > 0 {
      var h := if LocaleKeeps(a[0]) then [a[0]] else [];
      assert (a + b)[0] == a[0];
      assert (a + b)[1..] == a[1..] + b;
      KeptAppend(a[1..], b);
      assert Kept(a + b) == h + (Kept(a[1..]) + Kept(b));
      assert h + (Kept(a[1..]) + Kept(b)) == (h + Kept(a[1..])) + Kept(b);
    } else {
      assert a + b == b;
    }
  }

  /** A byte from 128 up inside the argument is dropped and the rest stays
      in place. */
  lemma KeptDropsHighByte(a: string, c: char, b: string)
    requires !LocaleKeeps(c)
    ensures Kept(a + [c] + b) == Kept(a) + Kept(b)
  {
    KeptAppend(a + [c], b);
    KeptAppend(a, [c]);
    KeptChar(c);
    assert Kept(a) + [] == Kept(a);
  }

  /** A string of bytes below 128 is kept whole. */
  lemma {:induction false} KeptAscii(s: string)
    requires forall i :: 0 <= i < |s| ==> LocaleKeeps(s[i])
    ensures Kept(s) == s
    decreases |s|
  {
    if |s| > 0 {
      KeptAscii(s[1..]);
      assert s == [s[0]] + s[1..];
    }
  }

  /** `escapeshellarg`. */
  function EscapeShellArg(s: string): string {
    "'" + QuoteBody(Kept(s)) + "'"
  }

  /** How a POSIX shell reads one word made of single-quoted runs,
      backslash-escaped characters and plain characters; `None` when a quote
      is left open or a backslash ends the word. Blanks and other shell
      metacharacters are not treated specially here. */
  function ShellWord(s: string, quoted: bool): Option<string>
    decreases |s|
  {
    if |s| == 0 then (if quoted then None else Some(""))
    else if quoted then
      if s[0] == '\'' then ShellWord(s[1..], false)
      else match ShellWord(s[1..], true)
        case None => None
        case Some(w) => Some([s[0]] + w)
    else if s[0] == '\'' then ShellWord(s[1..], true)
    else if s[0] == '\\' then
      if |s| == 1 then None
      else match ShellWord(s[2..], false)
        case None => None
        case Some(w) => Some([s[1]] + w)
    else match ShellWord(s[1..], false)
      case None => None
      case Some(w) => Some([s[0]] + w)
  }

  /** The shell reads an escaped argument back as exactly the characters
      `escapeshellarg` kept, whatever quotes they contain. */
  lemma EscapeShellArgRoundTrip(s: string)
    ensures ShellWord(EscapeShellArg(s), false) == Some(Kept(s))
  {
    var e := EscapeShellArg(s);
    assert e[0] == '\'' && e[1..] == QuoteBody(Kept(s)) + "'";
    QuotedRunRoundTrip(Kept(s));
  }

  /** An argument of bytes below 128 is read back as itself. */
  lemma AsciiArgRoundTrip(s: string)
    requires forall i :: 0 <= i < |s| ==> LocaleKeeps(s[i])
    ensures ShellWord(EscapeShellArg(s), false) == Some(s)
  {
    EscapeShellArgRoundTrip(s);
    KeptAscii(s);
  }

  lemma {:induction false} QuotedRunRoundTrip(s: string)
    ensures ShellWord(QuoteBody(s) + "'", true) == Some(s)
    decreases |s|
  {
    if |s| == 0 {
      assert QuoteBody(s) + "'" == "'";
      assert ShellWord("'"[1..], false) == Some("");
    } else {
      var rest := QuoteBody(s[1..]) + "'";
      QuotedRunRoundTrip(s[1..]);
      if s[0] == '\'' {
        assert QuoteBody(s) + "'" == "'\\''" + rest;
        EscapedQuoteStep(rest, s[1..]);
      } else {
        assert QuoteBody(s) + "'" == [s[0]] + rest;
        QuotedCharStep(s[0], rest, s[1..]);
      }
      assert s == [s[0]] + s[1..];
    }
  }

  /** Inside single quotes, `'\''` reads as one quote character. */
  lemma EscapedQuoteStep(rest: string, w: string)
    requires ShellWord(rest, true) == Some(w)
    ensures ShellWord("'\\''" + rest, true) == Some(['\''] + w)
  {
    var x := "'\\''" + rest;
    assert x[1..] == "\\''" + rest;
    assert x[1..][2..] == "'" + rest;
    assert ("'" + rest)[1..] == rest;
    assert ShellWord("'" + rest, false) == Some(w);
    assert ShellWord(x[1..], false) == Some(['\''] + w);
  }

  /** Inside single quotes, any other character stands for itself. */
  lemma QuotedCharStep(c: char, rest: string, w: string)
    requires c != '\''
    requires ShellWord(rest, true) == Some(w)
    ensures ShellWord([c] + rest, true) == Some([c] + w)
  {
    assert ([c] + rest)[1..] == rest;
  }
}
