/** The local compiler backend (Classes/JsWatch/Compiler/GoogleClosureCompilerApplication.php):
    the command line it runs and the parser for the compiler's text output.

    The output is read as records of four lines: a header
    `file:line: TYPE - message`, the offending source line, a caret line whose
    length is the character offset, and a separator that is never looked at.
    A record starts at every fourth line and is read when its third line
    exists. */
module ClosureApplication {

  import opened Errors
  import opened Strings
  import opened CompilerOptions
  import opened Messages
  import opened CompilationResults
  import opened Compilers
  import opened Shell

  // ---------------------------------------------------------------------
  // The header pattern ^(?<file>[\w./_~-]+):(?<line>\d+): (?<type>[A-Z]+) - (?<message>.*)$

  datatype Header = Header(file: string, line: string, typ: string, text: string)

  predicate FileChar(c: char) {
    IsWordChar(c) || c == '.' || c == '/' || c == '~' || c == '-'
  }

  /** Length of the longest prefix of `s` whose characters satisfy `p`. */
  function Run(s: string, p: char -> bool): (n: nat)
    ensures n <= |s|
    ensures forall i :: 0 <= i < n ==> p(s[i])
    ensures n < |s| ==> !p(s[n])
    decreases |s|
  {
    if |s| > 0 && p(s[0]) then 1 + Run(s[1..], p) else 0
  }

  predicate IsFileName(s: string) {
    |s| > 0 && forall i :: 0 <= i < |s| ==> FileChar(s[i])
  }

  predicate IsDigits(s: string) {
    |s| > 0 && forall i :: 0 <= i < |s| ==> IsDigit(s[i])
  }

  predicate IsTypeWord(s: string) {
    |s| > 0 && forall i :: 0 <= i < |s| ==> IsUpper(s[i])
  }

  /** The headers the pattern can capture: `.` does not match a line break. */
  predicate WellFormed(h: Header) {
    IsFileName(h.file) && IsDigits(h.line) && IsTypeWord(h.typ) && '\n' !in h.text
  }

  /** The printed header, built back to front: type and text, then the line
      number, then the file name. */
  function TypeTail(h: Header): string {
    h.typ + " - " + h.text
  }

  function LineTail(h: Header): string {
    h.line + ": " + TypeTail(h)
  }

  function Render(h: Header): string {
    h.file + ":" + LineTail(h)
  }

  function LineBreak(nl: bool): string {
    if nl then "\n" else ""
  }

  /** The message group: everything to the end, where `$` may also stand
      just before one final line break. */
  function MessageGroup(t: string): Option<string> {
    if '\n' !in t then Some(t)
    else if t[|t| - 1] == '\n' && '\n' !in t[..|t| - 1] then Some(t[..|t| - 1])
    else None
  }

  /** The match of the header pattern, group by group. Each group's
      characters exclude the delimiter that follows it, so the match, when
      there is one, is unique: the file name runs to the first `:`. */
  function ParseHeader(s: string): Option<Header> {
    match IndexOf(s, ':')
    case None => None
    case Some(c) => if IsFileName(s[..c]) then ParseLineNumber(s[..c], s[c + 1..]) else None
  }

  /** After `file:`: the digits, then `: `. */
  function ParseLineNumber(file: string, rest: string): Option<Header> {
    var d := Run(rest, IsDigit);
    if d > 0 && |rest| >= d + 2 && rest[d..d + 2] == ": " then ParseType(file, rest[..d], rest[d + 2..])
    else None
  }

  /** After `file:line: `: the upper-case type, then ` - `, then the message. */
  function ParseType(file: string, line: string, rest: string): Option<Header> {
    var u := Run(rest, IsUpper);
    if u > 0 && |rest| >= u + 3 && rest[u..u + 3] == " - " then
      match MessageGroup(rest[u + 3..])
      case None => None
      case Some(text) => Some(Header(file, line, rest[..u], text))
    else None
  }

  lemma {:induction false} RunOfPrefix(a: string, b: string, p: char -> bool)
    requires forall i :: 0 <= i < |a| ==> p(a[i])
    requires |b| > 0 && !p(b[0])
    ensures Run(a + b, p) == |a|
    decreases |a|
  {
    if |a| == 0 {
      assert a + b == b;
    } else {
      assert (a + b)[0] == a[0];
      assert (a + b)[1..] == a[1..] + b;
      RunOfPrefix(a[1..], b, p);
    }
  }

  /** A run of `p`-characters, a delimiter that starts with a non-`p`
      character, and the rest: the run is the longest `p`-prefix and the
      three parts sit where the parser looks for them. */
  lemma Delimited(x: string, d: string, y: string, p: char -> bool)
    requires forall i :: 0 <= i < |x| ==> p(x[i])
    requires |d| > 0 && !p(d[0])
    ensures Run(x + d + y, p) == |x|
    ensures |x + d + y| >= |x| + |d|
    ensures (x + d + y)[..|x|] == x
    ensures (x + d + y)[|x|..|x| + |d|] == d
    ensures (x + d + y)[|x| + |d|..] == y
  {
    assert x + d + y == x + (d + y);
    RunOfPrefix(x, d + y, p);
  }

  lemma MessageGroupOf(text: string, nl: bool)
    requires '\n' !in text
    ensures MessageGroup(text + LineBreak(nl)) == Some(text)
  {
    if nl {
      var t := text + "\n";
      assert t[..|t| - 1] == text;
      assert t[|t| - 1] == '\n';
    } else {
      assert text + "" == text;
    }
  }

  lemma TypeRender(h: Header, nl: bool)
    requires IsTypeWord(h.typ) && '\n' !in h.text
    ensures ParseType(h.file, h.line, TypeTail(h) + LineBreak(nl)) == Some(h)
  {
    var tail := h.text + LineBreak(nl);
    assert TypeTail(h) + LineBreak(nl) == h.typ + " - " + tail;
    Delimited(h.typ, " - ", tail, IsUpper);
    MessageGroupOf(h.text, nl);
  }

  lemma LineRender(h: Header, nl: bool)
    requires IsDigits(h.line) && IsTypeWord(h.typ) && '\n' !in h.text
    ensures ParseLineNumber(h.file, LineTail(h) + LineBreak(nl)) == Some(h)
  {
    var r3 := TypeTail(h) + LineBreak(nl);
    assert LineTail(h) + LineBreak(nl) == h.line + ": " + r3;
    Delimited(h.line, ": ", r3, IsDigit);
    TypeRender(h, nl);
  }

  /** A well-formed header is read back from its rendering, with or without
      one trailing line break. */
  lemma ParseRender(h: Header, nl: bool)
    requires WellFormed(h)
    ensures ParseHeader(Render(h) + LineBreak(nl)) == Some(h)
  {
    var rest := LineTail(h) + LineBreak(nl);
    assert Render(h) + LineBreak(nl) == h.file + ":" + rest;
    FileThenRest(h.file, rest);
    LineRender(h, nl);
  }

  /** A file name never holds `:`, so the parser splits at the `:` after it. */
  lemma FileThenRest(file: string, rest: string)
    requires IsFileName(file)
    ensures ParseHeader(file + ":" + rest) == ParseLineNumber(file, rest)
  {
    var s := file + (":" + rest);
    assert file + ":" + rest == s;
    assert ':' !in file by {
      assert forall i :: 0 <= i < |file| ==> FileChar(file[i]);
    }
    IndexOfAfter(file, ":" + rest, ':');
    assert s[..|file|] == file && s[|file| + 1..] == rest;
  }

  lemma MessageGroupSound(t: string)
    requires MessageGroup(t).Some?
    ensures '\n' !in MessageGroup(t).value
    ensures t == MessageGroup(t).value || t == MessageGroup(t).value + "\n"
  {
    if '\n' in t {
      assert t == t[..|t| - 1] + "\n";
    }
  }

  lemma TypeSound(file: string, line: string, rest: string)
    requires ParseType(file, line, rest).Some?
    ensures var h := ParseType(file, line, rest).value;
      h.file == file && h.line == line && IsTypeWord(h.typ) && '\n' !in h.text
      && (rest == TypeTail(h) || rest == TypeTail(h) + "\n")
  {
    var h := ParseType(file, line, rest).value;
    var u := Run(rest, IsUpper);
    var t := rest[u + 3..];
    MessageGroupSound(t);
    assert rest == h.typ + " - " + t;
    if t != h.text {
      assert rest == TypeTail(h) + "\n";
    }
  }

  lemma LineSound(file: string, rest: string)
    requires ParseLineNumber(file, rest).Some?
    ensures var h := ParseLineNumber(file, rest).value;
      h.file == file && IsDigits(h.line) && IsTypeWord(h.typ) && '\n' !in h.text
      && (rest == LineTail(h) || rest == LineTail(h) + "\n")
  {
    var h := ParseLineNumber(file, rest).value;
    var d := Run(rest, IsDigit);
    var r3 := rest[d + 2..];
    TypeSound(file, rest[..d], r3);
    Around(rest, d, d + 2);
    AfterDelimiter(h.line, ": ", r3, TypeTail(h));
  }

  /** A text cut into three consecutive pieces. */
  lemma Around(s: string, i: nat, j: nat)
    requires i <= j <= |s|
    ensures s == s[..i] + s[i..j] + s[j..]
  {
  }

  /** A rest that is the tail, possibly with one line break, keeps that shape
      behind a fixed prefix. */
  lemma AfterDelimiter(x: string, d: string, r: string, tail: string)
    requires r == tail || r == tail + "\n"
    ensures x + d + r == x + d + tail || x + d + r == x + d + tail + "\n"
  {
    if r != tail {
      assert x + d + r == (x + d + tail) + "\n";
    }
  }

  /** Whatever the parser accepts is a well-formed header's rendering, with
      at most one line break after it. */
  lemma ParseSound(s: string)
    requires ParseHeader(s).Some?
    ensures WellFormed(ParseHeader(s).value)
    ensures s == Render(ParseHeader(s).value) || s == Render(ParseHeader(s).value) + "\n"
  {
    var h := ParseHeader(s).value;
    var c := IndexOf(s, ':').value;
    var rest := s[c + 1..];
    LineSound(s[..c], rest);
    RenderFromParts(s, c, h);
  }

  lemma RenderFromParts(s: string, c: nat, h: Header)
    requires c < |s| && s[c] == ':' && h.file == s[..c]
    requires s[c + 1..] == LineTail(h) || s[c + 1..] == LineTail(h) + "\n"
    ensures s == Render(h) || s == Render(h) + "\n"
  {
    assert s == s[..c] + ":" + s[c + 1..];
    if s[c + 1..] != LineTail(h) {
      assert s == h.file + ":" + (LineTail(h) + "\n");
    }
  }

  // ---------------------------------------------------------------------
  // Records
  //
  // The record layer takes the header reader as a parameter: the source uses
  // `ParseHeader`, and every property below except the round trip through
  // printed records holds for any reader.

  type HeaderReader = string -> Option<Header>

  const UnparsableMessage: string := "Could not parse compiler response"

  /** The message one record yields: text and line number from the header,
      the caret line's length as character offset, the second line as
      source line; WARNING and ERROR select the message kind, any other type
      and an unmatched header are fatal. */
  function RecordMessage(read: HeaderReader, lines: seq<string>, i: nat): (r: Result<Message>)
    requires i + 2 < |lines|
    ensures r.Success? <==> read(lines[i]).Some? && read(lines[i]).value.typ in {"WARNING", "ERROR"}
    ensures r.Success? ==>
      var h := read(lines[i]).value;
      && (r.value.kind == WarningMessage <==> h.typ == "WARNING")
      && (r.value.kind == ErrorMessage <==> h.typ == "ERROR")
      && r.value.message == h.text && r.value.lineNumber == h.line
      && r.value.characterNumber == |lines[i + 2]| && r.value.line == lines[i + 1]
    ensures read(lines[i]).None? ==> r == Failure(Exc(CommandExecution, UnparsableMessage, ResponseUnparsable))
    ensures r.Failure? && read(lines[i]).Some? ==>
      r == Failure(Exc(CommandExecution, UnparsableMessage + ": unknown type " + read(lines[i]).value.typ,
                       ResponseUnknownType))
  {
    match read(lines[i])
    case None => Failure(Exc(CommandExecution, UnparsableMessage, ResponseUnparsable))
    case Some(h) =>
      if h.typ == "WARNING" then Success(Message(WarningMessage, h.text, h.line, |lines[i + 2]|, lines[i + 1]))
      else if h.typ == "ERROR" then Success(Message(ErrorMessage, h.text, h.line, |lines[i + 2]|, lines[i + 1]))
      else Failure(Exc(CommandExecution, UnparsableMessage + ": unknown type " + h.typ, ResponseUnknownType))
  }

  /** The number of records read from line `i` on: starts `i, i+4, ...`
      whose third line exists. */
  function RecordCount(n: nat, i: nat): nat {
    if i + 2 < n then (n - i - 3) / 4 + 1 else 0
  }

  lemma RecordCountStep(n: nat, i: nat)
    requires i + 2 < n
    ensures RecordCount(n, i + 4) == RecordCount(n, i) - 1
  {
    if i + 6 < n {
      assert (n - i - 7) / 4 + 1 == (n - i - 3) / 4;
    }
  }

  /** The source's loop: read the record at `i`, add its message, go on at
      `i + 4`; the first bad record aborts everything. */
  function AddRecords(read: HeaderReader, r: CompilationResult, lines: seq<string>, i: nat): Result<CompilationResult>
    decreases |lines| - i
  {
    if i + 2 < |lines| then
      match RecordMessage(read, lines, i)
      case Failure(e) => Failure(e)
      case Success(m) =>
        match AddMessage(r, m)
        case Failure(e) => Failure(e)
        case Success(r') => AddRecords(read, r', lines, i + 4)
    else Success(r)
  }

  /** The messages of all records from `i` on, or the first bad record's
      failure. */
  function RecordsFrom(read: HeaderReader, lines: seq<string>, i: nat): (r: Result<seq<Message>>)
    ensures r.Success? ==> |r.value| == RecordCount(|lines|, i) && Classified(r.value)
    decreases |lines| - i
  {
    if i + 2 < |lines| then
      match RecordMessage(read, lines, i)
      case Failure(e) => Failure(e)
      case Success(m) =>
        match RecordsFrom(read, lines, i + 4)
        case Failure(e) => Failure(e)
        case Success(ms) =>
          RecordCountStep(|lines|, i);
          assert Classified([m] + ms) by {
            assert forall k :: 1 <= k < |ms| + 1 ==> ([m] + ms)[k] == ms[k - 1];
          }
          Success([m] + ms)
    else Success([])
  }

  /** The k-th message read is the k-th record's message. */
  lemma {:induction false} RecordsFromContents(read: HeaderReader, lines: seq<string>, i: nat)
    requires RecordsFrom(read, lines, i).Success?
    ensures var ms := RecordsFrom(read, lines, i).value;
      forall k :: 0 <= k < |ms| ==> i + 4 * k + 2 < |lines| && RecordMessage(read, lines, i + 4 * k) == Success(ms[k])
    decreases |lines| - i
  {
    if i + 2 < |lines| {
      var ms := RecordsFrom(read, lines, i).value;
      var ms' := RecordsFrom(read, lines, i + 4).value;
      RecordsFromContents(read, lines, i + 4);
      assert ms == [ms[0]] + ms';
      forall k | 0 <= k < |ms| ensures i + 4 * k + 2 < |lines| && RecordMessage(read, lines, i + 4 * k) == Success(ms[k]) {
        if k > 0 {
          assert ms[k] == ms'[k - 1];
          assert i + 4 * k == (i + 4) + 4 * (k - 1);
        }
      }
    }
  }

  /** On failure the reported exception is the first bad record's: every
      record before record `k` is good. */
  lemma {:induction false} RecordsFromFirstFailure(read: HeaderReader, lines: seq<string>, i: nat) returns (k: nat)
    requires RecordsFrom(read, lines, i).Failure?
    ensures k < RecordCount(|lines|, i)
    ensures forall j :: 0 <= j < k ==> RecordMessage(read, lines, i + 4 * j).Success?
    ensures RecordMessage(read, lines, i + 4 * k) == Failure(RecordsFrom(read, lines, i).error)
    decreases |lines| - i
  {
    if RecordMessage(read, lines, i).Failure? {
      k := 0;
    } else {
      var k' := RecordsFromFirstFailure(read, lines, i + 4);
      RecordCountStep(|lines|, i);
      k := k' + 1;
      forall j | 0 <= j < k ensures RecordMessage(read, lines, i + 4 * j).Success? {
        if j > 0 {
          assert i + 4 * j == (i + 4) + 4 * (j - 1);
        }
      }
      assert i + 4 * k == (i + 4) + 4 * k';
    }
  }

  /** Reading the records succeeds exactly when every record's header
      matches and names a known type. */
  lemma RecordsFromSucceeds(read: HeaderReader, lines: seq<string>, i: nat)
    ensures RecordsFrom(read, lines, i).Success? <==>
      forall k :: 0 <= k < RecordCount(|lines|, i) ==> RecordMessage(read, lines, i + 4 * k).Success?
  {
    if RecordsFrom(read, lines, i).Success? {
      RecordsFromContents(read, lines, i);
    } else {
      var k := RecordsFromFirstFailure(read, lines, i);
    }
  }

  /** The loop is `AddMessages` over the records' messages: it fails with
      the first bad record's exception, and otherwise adds every message in
      output order. */
  lemma {:induction false} AddRecordsIsAddMessages(read: HeaderReader, r: CompilationResult, lines: seq<string>, i: nat)
    ensures AddRecords(read, r, lines, i) ==
      match RecordsFrom(read, lines, i)
      case Failure(e) => Failure(e)
      case Success(ms) => AddMessages(r, ms)
    decreases |lines| - i
  {
    if i + 2 < |lines| && RecordMessage(read, lines, i).Success? {
      var m := RecordMessage(read, lines, i).value;
      var r' := AddMessage(r, m).value;
      AddRecordsIsAddMessages(read, r', lines, i + 4);
      if RecordsFrom(read, lines, i + 4).Success? {
        var ms := RecordsFrom(read, lines, i + 4).value;
        assert ([m] + ms)[0] == m && ([m] + ms)[1..] == ms;
      }
    }
  }

  /** The fourth line of a record is never inspected. */
  lemma {:induction false} SeparatorIgnored(read: HeaderReader, lines: seq<string>, lines': seq<string>, i: nat)
    requires |lines| == |lines'| && i % 4 == 0
    requires forall j :: 0 <= j < |lines| && j % 4 != 3 ==> lines[j] == lines'[j]
    ensures RecordsFrom(read, lines, i) == RecordsFrom(read, lines', i)
    decreases |lines| - i
  {
    if i + 2 < |lines| {
      assert lines[i] == lines'[i] && lines[i + 1] == lines'[i + 1] && lines[i + 2] == lines'[i + 2];
      assert RecordMessage(read, lines, i) == RecordMessage(read, lines', i);
      SeparatorIgnored(read, lines, lines', i + 4);
    }
  }

  /** Lines in front of a record boundary do not change what is read after it. */
  lemma {:induction false} RecordsAfterPrefix(read: HeaderReader, a: seq<string>, b: seq<string>, i: nat)
    ensures RecordsFrom(read, a + b, |a| + i) == RecordsFrom(read, b, i)
    decreases |b| - i
  {
    if i + 2 < |b| {
      var ab := a + b;
      assert ab[|a| + i] == b[i] && ab[|a| + i + 1] == b[i + 1] && ab[|a| + i + 2] == b[i + 2];
      assert RecordMessage(read, ab, |a| + i) == RecordMessage(read, b, i);
      RecordsAfterPrefix(read, a, b, i + 4);
      assert |a| + i + 4 == |a| + (i + 4);
    }
  }

  // ---------------------------------------------------------------------
  // Printed records

  function TypeWord(k: MessageKind): string {
    if k == WarningMessage then "WARNING" else "ERROR"
  }

  /** The characters C's `isspace` accepts: `exec` drops them from the end
      of every output line it returns. */
  predicate IsExecSpace(c: char) {
    c == ' ' || c == '\t' || c == '\n' || c == '\r' || c == 11 as char || c == 12 as char
  }

  /** A line `exec` returns unchanged: empty, or ending in a visible character. */
  predicate Unstripped(l: string) {
    l == [] || !IsExecSpace(l[|l| - 1])
  }

  /** One output line as `exec` returns it. */
  function StripEnd(l: string): (r: string)
    ensures |r| <= |l| && r == l[..|r|]
    ensures forall i :: |r| <= i < |l| ==> IsExecSpace(l[i])
    ensures Unstripped(r)
  {
    if |l| > 0 && IsExecSpace(l[|l| - 1]) then StripEnd(l[..|l| - 1]) else l
  }

  /** Each of a list of lines as `exec` returns it. */
  function ExecLines(lines: seq<string>): seq<string> {
    seq(|lines|, k requires 0 <= k < |lines| => StripEnd(lines[k]))
  }

  /** The text a command prints when it writes each of `lines` followed by
      a line feed. */
  function PrintedText(lines: seq<string>): string
    decreases |lines|
  {
    if |lines| == 0 then "" else lines[0] + "\n" + PrintedText(lines[1..])
  }

  /** `exec`: the printed text cut at its line feeds (a final line feed ends
      the last line rather than starting another; no text, no lines), each
      line stripped at its end. */
  function ExecOutput(text: string): seq<string> {
    if text == [] then []
    else ExecLines(Split(if text[|text| - 1] == '\n' then text[..|text| - 1] else text, '\n'))
  }

  /** A line `exec` gives back as it was printed: one line, not ending in
      white space. */
  predicate PlainLine(l: string) {
    '\n' !in l && Unstripped(l)
  }

  /** A message the compiler can print for `file`: a classified message with
      a decimal line number, a non-empty one-line text, a one-line source
      line and a caret at column 1 or later; neither the text nor the source
      line ends in white space, so `exec` returns every printed line as it
      was printed. */
  predicate Printable(file: string, m: Message) {
    IsFileName(file) && IsDigits(m.lineNumber) && '\n' !in m.message
    && m.kind != PlainMessage && m.characterNumber >= 1
    && |m.message| > 0 && Unstripped(m.message) && Unstripped(m.line) && '\n' !in m.line
  }

  function PrintedHeader(file: string, m: Message): Header {
    Header(file, m.lineNumber, TypeWord(m.kind), m.message)
  }

  /** The four lines the compiler prints for one diagnostic. */
  function RecordLines(file: string, m: Message): (ls: seq<string>)
    requires Printable(file, m)
    ensures |ls| == 4
  {
    [Render(PrintedHeader(file, m)), m.line, PadLeft("^", m.characterNumber), ""]
  }

  function Concat(blocks: seq<seq<string>>): seq<string>
    decreases |blocks|
  {
    if |blocks| == 0 then [] else blocks[0] + Concat(blocks[1..])
  }

  /** The compiler's whole output for a list of diagnostics. */
  function Output(file: string, ms: seq<Message>): seq<string>
    requires forall k :: 0 <= k < |ms| ==> Printable(file, ms[k])
  {
    Concat(seq(|ms|, k requires 0 <= k < |ms| => RecordLines(file, ms[k])))
  }

  /** Every line of the output for printable diagnostics survives `exec`. */
  lemma RecordLinesPlain(file: string, m: Message)
    requires Printable(file, m)
    ensures forall j :: 0 <= j < 4 ==> PlainLine(RecordLines(file, m)[j])
  {
    PrintedHeaderPlain(file, m);
    LineMarkPlain(m.characterNumber);
    FourPlain(Render(PrintedHeader(file, m)), m.line, PadLeft("^", m.characterNumber));
  }

  /** The header line of a printable diagnostic is a plain line. */
  lemma PrintedHeaderPlain(file: string, m: Message)
    requires Printable(file, m)
    ensures PlainLine(Render(PrintedHeader(file, m)))
  {
    var h := PrintedHeader(file, m);
    assert '\n' !in h.file by {
      assert forall i :: 0 <= i < |h.file| ==> h.file[i] != '\n';
    }
    assert '\n' !in h.line by {
      assert forall i :: 0 <= i < |h.line| ==> h.line[i] != '\n';
    }
    assert '\n' !in h.typ;
    HeaderPlain(h);
  }

  /** Three plain lines followed by an empty one are all plain. */
  lemma FourPlain(a: string, b: string, c: string)
    requires PlainLine(a) && PlainLine(b) && PlainLine(c)
    ensures forall j :: 0 <= j < 4 ==> PlainLine([a, b, c, ""][j])
  {
    assert PlainLine("");
  }

  /** A header whose parts are one-line, with a text not ending in white
      space, is printed as a plain line. */
  lemma HeaderPlain(h: Header)
    requires '\n' !in h.file && '\n' !in h.line && '\n' !in h.typ && '\n' !in h.text
    requires |h.text| > 0 && Unstripped(h.text)
    ensures PlainLine(Render(h))
  {
    UnstrippedAppend(h.typ + " - ", h.text);
    UnstrippedAppend(h.line + ": ", TypeTail(h));
    UnstrippedAppend(h.file + ":", LineTail(h));
  }

  lemma UnstrippedAppend(x: string, t: string)
    requires |t| > 0 && Unstripped(t)
    ensures Unstripped(x + t)
  {
    assert (x + t)[|x + t| - 1] == t[|t| - 1];
  }

  /** The caret line is blanks and a final caret. */
  lemma LineMarkPlain(n: int)
    ensures PlainLine(PadLeft("^", n))
  {
    var mark := PadLeft("^", n);
    assert mark[|mark| - 1] == '^';
    assert forall i :: 0 <= i < |mark| ==> mark[i] == ' ' || mark[i] == '^';
  }

  lemma {:induction false} ConcatPlain(blocks: seq<seq<string>>)
    requires forall k, j :: 0 <= k < |blocks| && 0 <= j < |blocks[k]| ==> PlainLine(blocks[k][j])
    ensures forall i :: 0 <= i < |Concat(blocks)| ==> PlainLine(Concat(blocks)[i])
    decreases |blocks|
  {
    if |blocks| > 0 {
      ConcatPlain(blocks[1..]);
      assert forall j :: 0 <= j < |blocks[0]| ==> PlainLine(blocks[0][j]);
      assert forall i :: 0 <= i < |Concat(blocks[1..])| ==> PlainLine(Concat(blocks[1..])[i]);
    }
  }

  /** Printing lines one after another is joining them with line feeds and
      ending with one. */
  lemma {:induction false} PrintedTextJoin(lines: seq<string>)
    requires |lines| > 0
    ensures PrintedText(lines) == Join(lines, '\n') + "\n"
    decreases |lines|
  {
    if |lines| > 1 {
      PrintedTextJoin(lines[1..]);
      assert PrintedText(lines) == lines[0] + "\n" + (Join(lines[1..], '\n') + "\n");
    }
  }

  /** `exec` gives back any list of one-line lines that do not end in white
      space exactly as they were printed. */
  lemma ExecOfPlainLines(lines: seq<string>)
    requires forall i :: 0 <= i < |lines| ==> PlainLine(lines[i])
    ensures ExecOutput(PrintedText(lines)) == lines
  {
    if |lines| > 0 {
      var j := Join(lines, '\n');
      var text := PrintedText(lines);
      PrintedTextJoin(lines);
      assert text != [] && text[|text| - 1] == '\n';
      assert text[..|text| - 1] == j;
      calc {
        ExecOutput(text);
        ExecLines(Split(j, '\n'));
        { SplitJoin(lines, '\n'); }
        ExecLines(lines);
        { UnstrippedKept(lines); }
        lines;
      }
    }
  }

  lemma UnstrippedKept(lines: seq<string>)
    requires forall i :: 0 <= i < |lines| ==> Unstripped(lines[i])
    ensures ExecLines(lines) == lines
  {
    forall i | 0 <= i < |lines| ensures StripEnd(lines[i]) == lines[i] {
    }
  }

  /** `exec` returns the compiler's output for printable diagnostics line for
      line as it was printed. */
  lemma ExecKeepsOutput(file: string, ms: seq<Message>)
    requires forall k :: 0 <= k < |ms| ==> Printable(file, ms[k])
    ensures ExecOutput(PrintedText(Output(file, ms))) == Output(file, ms)
  {
    var blocks := seq(|ms|, k requires 0 <= k < |ms| => RecordLines(file, ms[k]));
    forall k | 0 <= k < |blocks| ensures forall j :: 0 <= j < |blocks[k]| ==> PlainLine(blocks[k][j]) {
      RecordLinesPlain(file, ms[k]);
    }
    ConcatPlain(blocks);
    ExecOfPlainLines(Output(file, ms));
  }

  /** A record is read from its first three lines only. */
  lemma RecordOfPrefix(read: HeaderReader, a: seq<string>, b: seq<string>)
    requires |a| >= 3
    ensures RecordMessage(read, a + b, 0) == RecordMessage(read, a, 0)
  {
    assert (a + b)[0] == a[0] && (a + b)[1] == a[1] && (a + b)[2] == a[2];
  }

  /** Four-line blocks, each a good record, are read as their messages. */
  lemma {:induction false} RecordsOfBlocks(read: HeaderReader, blocks: seq<seq<string>>, ms: seq<Message>)
    requires |blocks| == |ms|
    requires forall k :: 0 <= k < |blocks| ==> |blocks[k]| == 4 && RecordMessage(read, blocks[k], 0) == Success(ms[k])
    ensures RecordsFrom(read, Concat(blocks), 0) == Success(ms)
    decreases |blocks|
  {
    if |blocks| > 0 {
      var a, b := blocks[0], Concat(blocks[1..]);
      RecordsOfBlocks(read, blocks[1..], ms[1..]);
      RecordOfPrefix(read, a, b);
      RecordsAfterPrefix(read, a, b, 0);
      assert ms == [ms[0]] + ms[1..];
    }
  }

  /** A reader that reads every printed header for `file` back. */
  ghost predicate ReadsPrinted(read: HeaderReader, file: string) {
    forall m :: Printable(file, m) ==> read(Render(PrintedHeader(file, m))) == Some(PrintedHeader(file, m))
  }

  lemma RecordLinesRead(read: HeaderReader, file: string, m: Message)
    requires Printable(file, m) && ReadsPrinted(read, file)
    ensures RecordMessage(read, RecordLines(file, m), 0) == Success(m)
  {
  }

  lemma ParseRendered(h: Header)
    requires WellFormed(h)
    ensures ParseHeader(Render(h)) == Some(h)
  {
    ParseRender(h, false);
    assert Render(h) + LineBreak(false) == Render(h);
  }

  lemma PrintedHeaderWellFormed(file: string, m: Message)
    requires Printable(file, m)
    ensures WellFormed(PrintedHeader(file, m))
  {
    var t := TypeWord(m.kind);
    assert forall j :: 0 <= j < |t| ==> IsUpper(t[j]);
  }

  /** The header pattern reads every printed header back. */
  lemma ParseHeaderReadsPrinted(file: string)
    ensures ReadsPrinted(ParseHeader, file)
  {
    forall m | Printable(file, m)
      ensures ParseHeader(Render(PrintedHeader(file, m))) == Some(PrintedHeader(file, m))
    {
      PrintedHeaderWellFormed(file, m);
      ParseRendered(PrintedHeader(file, m));
    }
  }

  lemma PrintedRoundTrip(read: HeaderReader, file: string, ms: seq<Message>)
    requires forall k :: 0 <= k < |ms| ==> Printable(file, ms[k])
    requires ReadsPrinted(read, file)
    ensures RecordsFrom(read, Output(file, ms), 0) == Success(ms)
  {
    var blocks := seq(|ms|, k requires 0 <= k < |ms| => RecordLines(file, ms[k]));
    forall k | 0 <= k < |blocks| ensures |blocks[k]| == 4 && RecordMessage(read, blocks[k], 0) == Success(ms[k]) {
      RecordLinesRead(read, file, ms[k]);
    }
    RecordsOfBlocks(read, blocks, ms);
  }

  /** Round trip: the output printed for a list of diagnostics is read back
      as exactly that list. */
  lemma OutputRoundTrip(file: string, ms: seq<Message>)
    requires forall k :: 0 <= k < |ms| ==> Printable(file, ms[k])
    ensures RecordsFrom(ParseHeader, Output(file, ms), 0) == Success(ms)
    ensures RecordsFrom(ParseHeader, ExecOutput(PrintedText(Output(file, ms))), 0) == Success(ms)
  {
    ParseHeaderReadsPrinted(file);
    PrintedRoundTrip(ParseHeader, file, ms);
    ExecKeepsOutput(file, ms);
  }

  // ---------------------------------------------------------------------
  // The whole response

  /** `parseResponse`: exit code 0 means success with the code the compiler
      wrote to the target file (`targetContents`); the diagnostics are read
      whatever the exit code. */
  function ParseResponse(read: HeaderReader, source: string, target: string, exitCode: int, lines: seq<string>,
                         targetContents: string): (r: Result<CompilationResult>)
    ensures r.Success? <==> RecordsFrom(read, lines, 0).Success?
    ensures r.Failure? ==> r.error == RecordsFrom(read, lines, 0).error
    ensures r.Success? ==> r.value.source == source && r.value.target == Some(target)
    ensures r.Success? ==> (r.value.successful <==> exitCode == 0)
    ensures r.Success? ==> r.value.compiledCode == if exitCode == 0 then Some(targetContents) else None
    ensures r.Success? ==> CodeIfSuccessful(r.value)
    ensures r.Success? ==>
      var ms := RecordsFrom(read, lines, 0).value;
      r.value.errors == OfKind(ms, ErrorMessage) && r.value.warnings == OfKind(ms, WarningMessage)
  {
    var base := NewResult(source, Some(target));
    var base := if exitCode == 0 then SetCompiledCode(SetSuccessful(base, true), targetContents) else base;
    AddRecordsIsAddMessages(read, base, lines, 0);
    assert RecordsFrom(read, lines, 0).Success? ==>
      var ms := RecordsFrom(read, lines, 0).value;
      AddMessages(base, ms) == Success(base.(errors := base.errors + OfKind(ms, ErrorMessage),
                                              warnings := base.warnings + OfKind(ms, WarningMessage))) by {
      if RecordsFrom(read, lines, 0).Success? {
        AddMessagesRoutes(base, RecordsFrom(read, lines, 0).value);
      }
    }
    AddRecords(read, base, lines, 0)
  }

  /** Reading the output printed for a list of diagnostics reports exactly
      its errors and its warnings, each in order. */
  lemma ParseResponseOfOutput(source: string, target: string, exitCode: int, file: string,
                              ms: seq<Message>, targetContents: string)
    requires forall k :: 0 <= k < |ms| ==> Printable(file, ms[k])
    ensures var r := ParseResponse(ParseHeader, source, target, exitCode, ExecOutput(PrintedText(Output(file, ms))),
                                   targetContents);
      r.Success? && r.value.errors == OfKind(ms, ErrorMessage) && r.value.warnings == OfKind(ms, WarningMessage)
  {
    OutputRoundTrip(file, ms);
  }

  /** Exactly `floor((n + 1) / 4)` messages come out of `n` output lines. */
  lemma MessageCount(read: HeaderReader, source: string, target: string, exitCode: int, lines: seq<string>,
                     targetContents: string)
    requires ParseResponse(read, source, target, exitCode, lines, targetContents).Success?
    ensures var r := ParseResponse(read, source, target, exitCode, lines, targetContents).value;
      |r.errors| + |r.warnings| == (|lines| + 1) / 4
  {
    var ms := RecordsFrom(read, lines, 0).value;
    OfKindSplit(ms);
  }

  lemma {:induction false} OfKindSplit(ms: seq<Message>)
    requires Classified(ms)
    ensures |OfKind(ms, ErrorMessage)| + |OfKind(ms, WarningMessage)| == |ms|
    decreases |ms|
  {
    if |ms| > 0 {
      ClassifiedTail(ms);
      OfKindSplit(ms[1..]);
    }
  }

  /** A header with a type other than WARNING and ERROR is fatal, even on
      exit code 0. */
  lemma UnknownTypeIsFatal(h: Header, lines: seq<string>)
    requires WellFormed(h) && h.typ !in {"WARNING", "ERROR"}
    requires |lines| >= 3 && lines[0] == Render(h)
    ensures RecordsFrom(ParseHeader, lines, 0)
      == Failure(Exc(CommandExecution, UnparsableMessage + ": unknown type " + h.typ, ResponseUnknownType))
  {
    ParseRendered(h);
  }

  // ---------------------------------------------------------------------
  // The command line

  predicate ScalarOptions(opts: Options) {
    forall i :: 0 <= i < |opts| ==> opts[i].1.Scalar?
  }

  /** The options passed to the compiler: the caller's, then the fixed
      logging and summary options, then input and output file. */
  function CommandOptions(req: RunRequest): Options
    requires DistinctKeys(req.options)
  {
    var opts := Merge(req.options, [("logging_level", Scalar("SEVERE")), ("summary_detail_level", Scalar("0"))]);
    Assign(Assign(opts, "js", Scalar(req.source)), "js_output_file", Scalar(req.target))
  }

  /** One ` --key 'value'` argument. */
  function Argument(key: string, value: string): string {
    " --" + key + " " + EscapeShellArg(value)
  }

  function OptionArguments(opts: Options): string
    requires ScalarOptions(opts)
    decreases |opts|
  {
    if |opts| == 0 then ""
    else Argument(opts[0].0, opts[0].1.text) + OptionArguments(opts[1..])
  }

  /** The jar shipped with the tool, relative to the backend's directory. */
  function JarPath(classDir: string): string {
    classDir + "/../../../Vendor/GoogleClosureCompiler/compiler.jar"
  }

  /** The command `runCompiler` executes, with output redirection. */
  function Command(classDir: string, opts: Options): string
    requires ScalarOptions(opts)
  {
    "java -jar " + EscapeShellArg(JarPath(classDir)) + OptionArguments(opts) + " 2>&1"
  }

  /** With no caller options (what `compileFile` passes) the options are the
      two fixed ones followed by input and output file. */
  lemma CompileFileOptions(req: RunRequest)
    requires req.options == []
    ensures CommandOptions(req) == [("logging_level", Scalar("SEVERE")), ("summary_detail_level", Scalar("0")),
                                    ("js", Scalar(req.source)), ("js_output_file", Scalar(req.target))]
  {
    var k0, k1 := "logging_level", "summary_detail_level";
    assert |k0| == 13 && |k1| == 20 && |"js"| == 2 && |"js_output_file"| == 14;
    FreshKeys(k0, Scalar("SEVERE"), k1, Scalar("0"), "js", Scalar(req.source), "js_output_file", Scalar(req.target));
  }

  /** Merging two entries into no options and then assigning two new keys
      lists the four entries in that order. */
  lemma FreshKeys(k0: string, v0: OptionValue, k1: string, v1: OptionValue,
                  k2: string, v2: OptionValue, k3: string, v3: OptionValue)
    requires k0 != k1 && k2 != k0 && k2 != k1 && k3 != k0 && k3 != k1 && k3 != k2
    ensures Assign(Assign(Merge([], [(k0, v0), (k1, v1)]), k2, v2), k3, v3)
      == [(k0, v0), (k1, v1), (k2, v2), (k3, v3)]
  {
    var e := [(k0, v0), (k1, v1)];
    MergeIntoEmpty(e);
    AssignTwoNew(e, k2, v2, k3, v3);
    assert e + [(k2, v2), (k3, v3)] == [(k0, v0), (k1, v1), (k2, v2), (k3, v3)];
  }

  lemma AssignTwoNew(e: Options, k2: string, v2: OptionValue, k3: string, v3: OptionValue)
    requires DistinctKeys(e) && k2 != k3
    requires forall i :: 0 <= i < |e| ==> e[i].0 != k2 && e[i].0 != k3
    ensures Assign(Assign(e, k2, v2), k3, v3) == e + [(k2, v2), (k3, v3)]
  {
    AssignNew(e, k2, v2);
    var three := e + [(k2, v2)];
    assert forall i :: 0 <= i < |three| ==> three[i].0 != k3;
    AssignNew(three, k3, v3);
    assert three + [(k3, v3)] == e + [(k2, v2), (k3, v3)];
  }

  /** The command line `compileFile` runs: each option value is passed as
      one shell-quoted argument. */
  lemma CommandForCompileFile(classDir: string, req: RunRequest)
    requires req.options == []
    ensures ScalarOptions(CommandOptions(req))
    ensures Command(classDir, CommandOptions(req))
      == "java -jar " + EscapeShellArg(JarPath(classDir))
         + Argument("logging_level", "SEVERE") + Argument("summary_detail_level", "0")
         + Argument("js", req.source) + Argument("js_output_file", req.target)
         + " 2>&1"
  {
    CompileFileOptions(req);
    CommandOfFixedOptions(classDir, CommandOptions(req), req.source, req.target);
  }

  lemma CommandOfFixedOptions(classDir: string, o: Options, source: string, target: string)
    requires o == [("logging_level", Scalar("SEVERE")), ("summary_detail_level", Scalar("0")),
                   ("js", Scalar(source)), ("js_output_file", Scalar(target))]
    ensures ScalarOptions(o)
    ensures Command(classDir, o)
      == "java -jar " + EscapeShellArg(JarPath(classDir))
         + Argument("logging_level", "SEVERE") + Argument("summary_detail_level", "0")
         + Argument("js", source) + Argument("js_output_file", target)
         + " 2>&1"
  {
    FourArguments(o);
    var a0, a1 := Argument("logging_level", "SEVERE"), Argument("summary_detail_level", "0");
    var a2, a3 := Argument("js", source), Argument("js_output_file", target);
    AppendFour("java -jar " + EscapeShellArg(JarPath(classDir)), a0, a1, a2, a3, " 2>&1");
  }

  lemma AppendFour(j: string, a0: string, a1: string, a2: string, a3: string, t: string)
    ensures j + (a0 + a1 + a2 + a3) + t == j + a0 + a1 + a2 + a3 + t
  {
  }

  lemma FourArguments(o: Options)
    requires |o| == 4 && ScalarOptions(o)
    ensures OptionArguments(o)
      == Argument(o[0].0, o[0].1.text) + Argument(o[1].0, o[1].1.text)
         + Argument(o[2].0, o[2].1.text) + Argument(o[3].0, o[3].1.text)
  {
    var a0, a1 := Argument(o[0].0, o[0].1.text), Argument(o[1].0, o[1].1.text);
    var a2, a3 := Argument(o[2].0, o[2].1.text), Argument(o[3].0, o[3].1.text);
    OptionArgumentsStep(o, 3);
    assert o[4..] == [];
    assert OptionArguments(o[3..]) == a3;
    OptionArgumentsStep(o, 2);
    OptionArgumentsStep(o, 1);
    OptionArgumentsStep(o, 0);
    assert o[0..] == o;
    assert OptionArguments(o) == a0 + (a1 + (a2 + a3));
    Regroup(a0, a1, a2, a3);
  }

  lemma Regroup(a: string, b: string, c: string, d: string)
    ensures a + (b + (c + d)) == a + b + c + d
  {
  }

  /** One step of `OptionArguments` from position `i`. */
  lemma OptionArgumentsStep(o: Options, i: nat)
    requires ScalarOptions(o) && i < |o|
    ensures OptionArguments(o[i..]) == Argument(o[i].0, o[i].1.text) + OptionArguments(o[i + 1..])
  {
    assert o[i..][0] == o[i] && o[i..][1..] == o[i + 1..];
  }

  /** `runCompiler`: the result of running `Command` and parsing what it
      printed. The process is not modelled: its exit code, output lines and
      the target file's contents afterwards are inputs. */
  function RunCompiler(req: RunRequest, exitCode: int, outputLines: seq<string>, targetContents: string): (r: Result<CompilationResult>)
    ensures r.Success? ==> r.value.source == req.source && r.value.target == Some(req.target)
    ensures r.Success? ==> (r.value.successful <==> exitCode == 0) && CodeIfSuccessful(r.value)
  {
    ParseResponse(ParseHeader, req.source, req.target, exitCode, outputLines, targetContents)
  }

  lemma CompileFileScalar(req: RunRequest)
    requires req.options == []
    ensures ScalarOptions(CommandOptions(req))
  {
    CompileFileOptions(req);
  }

  /** What running the command produced: the exit code, the output lines,
      and the target file's contents afterwards. */
  datatype Execution = Execution(exitCode: int, output: seq<string>, targetContents: string)

  /** `compileFile` with this backend: the shared guard and target choice,
      then the command is run (`exec` gives what each command line
      produces) and its output parsed. */
  function CompileFile(classDir: string, source: string, sourceIsFile: bool, targetName: Option<string>,
                       exec: string -> Execution): (r: Result<CompilationResult>)
    ensures !sourceIsFile ==> r.Failure? && r.error.kind == InvalidPath && r.error.code == SourceNotAFile
    ensures r.Success? ==> r.value.source == source
    ensures r.Success? ==> r.value.target == Some(if targetName.None? then GetTargetFileName(source) else targetName.value)
    ensures r.Success? ==> CodeIfSuccessful(r.value)
  {
    match CompileRequest(source, sourceIsFile, targetName)
    case Failure(e) => Failure(e)
    case Success(req) =>
      CompileFileScalar(req);
      var x := exec(Command(classDir, CommandOptions(req)));
      RunCompiler(req, x.exitCode, x.output, x.targetContents)
  }
}
