/** A diagnostic reported by the compiler (Classes/JsWatch/Compiler/Message.php)
    and its tab-aligned rendering.

    The compiler reports a character offset against the raw source line, where a
    tab is one character. For display both the line and the offset are
    re-expressed with tab stops every four columns, so that the caret line-mark
    sits under the offending column whatever tabs precede it. */
module Messages {

  import opened Errors
  import opened Strings

  const TabWidth: nat := 4

  /** The concrete class of a message. `PlainMessage` is the base class itself,
      which a compilation result refuses to classify. */
  datatype MessageKind = PlainMessage | ErrorMessage | WarningMessage

  /** `lineNumber` is kept as the text that is printed (the local compiler's
      digit group verbatim, or the decimal rendering of the service's number);
      `characterNumber` is the raw offset into `line`, tabs counting as one. */
  datatype Message = Message(
    kind: MessageKind,
    message: string,
    lineNumber: string,
    characterNumber: int,
    line: string)

  /** The constructor with its defaults: line number 0, offset 0, empty line. */
  function NewMessage(kind: MessageKind, message: string, lineNumber: string := "0",
                      characterNumber: int := 0, line: string := ""): (m: Message)
    ensures m.kind == kind && m.message == message
    ensures m.lineNumber == lineNumber && m.characterNumber == characterNumber && m.line == line
  {
    Message(kind, message, lineNumber, characterNumber, line)
  }

  /** `getType`: the class's type label. */
  function TypeName(k: MessageKind): string {
    match k
    case PlainMessage => "Message"
    case ErrorMessage => "Error"
    case WarningMessage => "Warning"
  }

  /** Tab expansion of raw text `s` whose first character lands on display
      column `col`: a tab on column `c` becomes `4 - c % 4` spaces. */
  function ExpandFrom(col: nat, s: string): string
    decreases |s|
  {
    if |s| == 0 then ""
    else
      var h := Cell(col, s[0]);
      h + ExpandFrom(col + |h|, s[1..])
  }

  /** What one raw character on display column `col` becomes: a tab the
      blanks up to the next tab stop, anything else itself. */
  function Cell(col: nat, c: char): string {
    if c == '\t' then Spaces(TabWidth - col % TabWidth) else [c]
  }

  /** The reference definition of `convertTabsToSpaces` with width 4. */
  function ExpandTabs(s: string): string {
    ExpandFrom(0, s)
  }

  /** The characters of `s` that are neither blanks nor tabs, in order. */
  function Visible(s: string): string {
    if |s| == 0 then ""
    else if s[0] == ' ' || s[0] == '\t' then Visible(s[1..])
    else [s[0]] + Visible(s[1..])
  }

  lemma {:induction false} ExpandHasNoTabs(col: nat, s: string)
    ensures NoTabs(ExpandFrom(col, s))
    decreases |s|
  {
    if |s| > 0 {
      ExpandHasNoTabs(if s[0] == '\t' then col + (TabWidth - col % TabWidth) else col + 1, s[1..]);
    }
  }

  lemma {:induction false} ExpandTabFree(col: nat, s: string)
    requires NoTabs(s)
    ensures ExpandFrom(col, s) == s
    decreases |s|
  {
    if |s| > 0 {
      ExpandTabFree(col + 1, s[1..]);
      assert s == [s[0]] + s[1..];
    }
  }

  /** Expansion is compositional: the second part starts on the column where
      the expansion of the first part ends. */
  lemma {:induction false} ExpandAppend(col: nat, a: string, b: string)
    ensures ExpandFrom(col, a + b) == ExpandFrom(col, a) + ExpandFrom(col + |ExpandFrom(col, a)|, b)
    decreases |a|
  {
    if |a| > 0 {
      var h := Cell(col, a[0]);
      var x := ExpandFrom(col + |h|, a[1..]);
      var y := ExpandFrom(col + |h| + |x|, b);
      assert (a + b)[0] == a[0];
      assert (a + b)[1..] == a[1..] + b;
      calc {
        ExpandFrom(col, a + b);
        h + ExpandFrom(col + |h|, a[1..] + b);
        { ExpandAppend(col + |h|, a[1..], b); }
        h + (x + y);
        { AppendAssoc(h, x, y); }
        (h + x) + y;
      }
    } else {
      assert a + b == b;
    }
  }

  lemma AppendAssoc(x: string, y: string, z: string)
    ensures x + (y + z) == (x + y) + z
  {
  }

  /** Expansion only ever adds columns. */
  lemma {:induction false} ExpandLength(col: nat, s: string)
    ensures |ExpandFrom(col, s)| >= |s|
    decreases |s|
  {
    if |s| > 0 {
      ExpandLength(if s[0] == '\t' then col + (TabWidth - col % TabWidth) else col + 1, s[1..]);
    }
  }

  /** Expanding a prefix of a line yields a prefix of the expanded line. */
  lemma ExpandPrefix(col: nat, a: string, s: string)
    requires a <= s
    ensures ExpandFrom(col, a) <= ExpandFrom(col, s)
  {
    assert s == a + s[|a|..];
    ExpandAppend(col, a, s[|a|..]);
  }

  /** A tab at raw position `j` is replaced by `4 - c % 4` spaces, where `c`
      is its expanded column, so the character after it starts on a multiple of 4. */
  lemma TabReachesTabStop(s: string, j: nat)
    requires j < |s| && s[j] == '\t'
    ensures var c := |ExpandTabs(s[..j])|;
      ExpandTabs(s[..j + 1]) == ExpandTabs(s[..j]) + Spaces(TabWidth - c % TabWidth)
      && |ExpandTabs(s[..j + 1])| % TabWidth == 0
  {
    assert s[..j + 1] == s[..j] + [s[j]];
    ExpandAppend(0, s[..j], [s[j]]);
    var c := |ExpandTabs(s[..j])|;
    assert ExpandFrom(c, [s[j]]) == Spaces(TabWidth - c % TabWidth) + ExpandFrom(c + (TabWidth - c % TabWidth), []);
  }

  /** Expansion drops no visible character and reorders none. */
  lemma {:induction false} ExpandKeepsVisible(col: nat, s: string)
    ensures Visible(ExpandFrom(col, s)) == Visible(s)
    decreases |s|
  {
    if |s| > 0 {
      var w := if s[0] == '\t' then TabWidth - col % TabWidth else 1;
      ExpandKeepsVisible(col + w, s[1..]);
      if s[0] == '\t' {
        SpacesInvisible(w, ExpandFrom(col + w, s[1..]));
      } else {
        assert ([s[0]] + ExpandFrom(col + 1, s[1..]))[1..] == ExpandFrom(col + 1, s[1..]);
      }
    }
  }

  lemma {:induction false} SpacesInvisible(n: nat, rest: string)
    ensures Visible(Spaces(n) + rest) == Visible(rest)
  {
    if n > 0 {
      assert (Spaces(n) + rest)[1..] == Spaces(n - 1) + rest;
      SpacesInvisible(n - 1, rest);
    } else {
      assert Spaces(0) + rest == rest;
    }
  }

  /** PHP `substr($s, 0, $n)`: a negative `n` drops `-n` characters from the
      end (nothing is left when it drops more than there are). */
  function SubstrPrefix(s: string, n: int): (r: string)
    ensures r <= s
    ensures 0 <= n ==> |r| == if n < |s| then n else |s|
    ensures n < 0 ==> |r| == if |s| + n < 0 then 0 else |s| + n
  {
    if n >= 0 then s[..if n < |s| then n else |s|]
    else s[..if |s| + n < 0 then 0 else |s| + n]
  }

  /** `getLine`: the source line with its tabs expanded. */
  function GetLine(m: Message): (r: string)
    ensures NoTabs(r)
    ensures NoTabs(m.line) ==> r == m.line
  {
    ExpandHasNoTabs(0, m.line);
    assert NoTabs(m.line) ==> ExpandTabs(m.line) == m.line by {
      if NoTabs(m.line) { ExpandTabFree(0, m.line); }
    }
    ExpandTabs(m.line)
  }

  /** `getCharacterNumber` (`resolveTabsInCharacterNumber`): the expanded
      width of the raw line's prefix up to the raw offset. */
  function GetCharacterNumber(m: Message): (n: nat)
    ensures n <= |GetLine(m)|
    ensures ExpandTabs(SubstrPrefix(m.line, m.characterNumber)) == GetLine(m)[..n]
  {
    ExpandPrefix(0, SubstrPrefix(m.line, m.characterNumber), m.line);
    |ExpandTabs(SubstrPrefix(m.line, m.characterNumber))|
  }

  /** `str_pad(s, n, ' ', STR_PAD_LEFT)`. */
  function PadLeft(s: string, n: int): (r: string)
    ensures |r| == if n <= |s| then |s| else n
    ensures EndsWith(r, s)
    ensures forall i :: 0 <= i < |r| - |s| ==> r[i] == ' '
  {
    if n <= |s| then s else Spaces(n - |s|) + s
  }

  /** `getLineMark`: the caret marker, padded on the left to the expanded
      character number. */
  function GetLineMark(m: Message): (r: string)
    ensures var n := GetCharacterNumber(m);
      |r| == (if n < 1 then 1 else n)
    ensures r[|r| - 1] == '^'
    ensures forall i :: 0 <= i < |r| - 1 ==> r[i] == ' '
  {
    var n := GetCharacterNumber(m);
    var r := PadLeft("^", n);
    assert r[|r| - 1] == "^"[0] by {
      assert r[|r| - 1..] == "^";
    }
    r
  }

  /** First line of the string form. */
  function HeaderLine(m: Message): string {
    TypeName(m.kind) + " in line " + m.lineNumber + ", character "
    + IntToString(GetCharacterNumber(m)) + ": " + m.message
  }

  /** `__toString`: header, expanded source line and line-mark, joined by
      PHP_EOL ("\n"). */
  function ToString(m: Message): string {
    HeaderLine(m) + "\n" + GetLine(m) + "\n" + GetLineMark(m)
  }

  /** The string form is exactly three lines when the stored texts carry no
      line break: the header, the expanded line, the line-mark. */
  lemma ToStringLines(m: Message)
    requires '\n' !in m.message && '\n' !in m.lineNumber && '\n' !in m.line
    ensures Split(ToString(m), '\n') == [
      TypeName(m.kind) + " in line " + m.lineNumber + ", character "
      + IntToString(GetCharacterNumber(m)) + ": " + m.message,
      GetLine(m),
      GetLineMark(m)]
  {
    HeaderHasNoLineBreak(m);
    assert '\n' !in GetLine(m) by {
      ExpandChars(0, m.line);
    }
    assert '\n' !in GetLineMark(m);
    SplitThree(HeaderLine(m), GetLine(m), GetLineMark(m), '\n');
  }

  lemma HeaderHasNoLineBreak(m: Message)
    requires '\n' !in m.message && '\n' !in m.lineNumber
    ensures '\n' !in HeaderLine(m)
  {
    NoNewlineInDecimal(GetCharacterNumber(m));
    var t := TypeName(m.kind);
    assert '\n' !in t by {
      match m.kind
      case PlainMessage =>
      case ErrorMessage =>
      case WarningMessage =>
    }
    assert '\n' !in " in line " && '\n' !in ", character " && '\n' !in ": ";
  }

  lemma SplitThree(a: string, b: string, c: string, sep: char)
    requires sep !in a && sep !in b && sep !in c
    ensures Split(a + [sep] + b + [sep] + c, sep) == [a, b, c]
  {
    var parts := [a, b, c];
    var tail := [b, c];
    assert parts[1..] == tail;
    assert tail[1..] == [c];
    assert Join([c], sep) == c;
    assert Join(tail, sep) == b + [sep] + c;
    assert Join(parts, sep) == a + [sep] + (b + [sep] + c);
    assert a + [sep] + b + [sep] + c == a + [sep] + (b + [sep] + c);
    assert forall i :: 0 <= i < |parts| ==> sep !in parts[i];
    SplitJoin(parts, sep);
  }

  lemma NoNewlineInDecimal(n: nat)
    ensures '\n' !in IntToString(n)
  {
    var s := IntToString(n);
    assert forall i :: 0 <= i < |s| ==> IsDigit(s[i]);
  }

  /** Every character of an expansion is a blank or comes from the raw text. */
  lemma {:induction false} ExpandChars(col: nat, s: string)
    ensures forall i :: 0 <= i < |ExpandFrom(col, s)| ==> ExpandFrom(col, s)[i] in s || ExpandFrom(col, s)[i] == ' '
    decreases |s|
  {
    if |s| > 0 {
      var w := if s[0] == '\t' then TabWidth - col % TabWidth else 1;
      ExpandChars(col + w, s[1..]);
      var e := ExpandFrom(col, s);
      forall i | 0 <= i < |e| ensures e[i] in s || e[i] == ' ' {
        if s[0] == '\t' {
          if i >= w {
            assert e[i] == ExpandFrom(col + w, s[1..])[i - w];
          }
        } else if i >= 1 {
          assert e[i] == ExpandFrom(col + 1, s[1..])[i - 1];
        }
      }
    }
  }

  /** `convertTabsToSpaces` as the source writes it: repeatedly find the
      first tab and replace it by the spaces up to the next tab stop. It
      computes the reference expansion and leaves no tab behind. */
  method ConvertTabsToSpaces(s: string) returns (r: string)
    ensures r == ExpandTabs(s)
    ensures NoTabs(r)
    ensures NoTabs(s) ==> r == s
  {
    r := s;
    ghost var k: nat := 0;
    var pos := IndexOf(r, '\t');
    while pos.Some?
      invariant k <= |s|
      invariant r == ExpandTabs(s[..k]) + s[k..]
      invariant pos == IndexOf(r, '\t')
      decreases |s| - k
    {
      var p := pos.value;
      k := ConvertStep(s, k, r, p);
      r := r[..p] + Spaces(TabWidth - p % TabWidth) + r[p + 1..];
      pos := IndexOf(r, '\t');
    }
    ConvertDone(s, k, r);
    ExpandHasNoTabs(0, s);
    if NoTabs(s) {
      ExpandTabFree(0, s);
    }
  }

  /** One iteration of the replacement loop consumes exactly one raw tab:
      returns the raw position just past it. */
  lemma ConvertStep(s: string, k: nat, r: string, p: nat) returns (k': nat)
    requires k <= |s| && r == ExpandTabs(s[..k]) + s[k..]
    requires IndexOf(r, '\t') == Some(p)
    ensures k < k' <= |s|
    ensures r[..p] + Spaces(TabWidth - p % TabWidth) + r[p + 1..] == ExpandTabs(s[..k']) + s[k'..]
  {
    var j := LocateTab(s, k, r, p);
    k' := ReplaceTab(s, j, r, p);
  }

  /** Replacing the tab at `p` of the loop's string, which is raw tab `j`,
      by blanks up to the next tab stop expands one more raw character. */
  lemma ReplaceTab(s: string, j: nat, r: string, p: nat) returns (k': nat)
    requires j < |s| && s[j] == '\t' && p < |r|
    requires ExpandTabs(s[..j]) == r[..p] && r[p + 1..] == s[j + 1..]
    ensures k' == j + 1
    ensures r[..p] + Spaces(TabWidth - p % TabWidth) + r[p + 1..] == ExpandTabs(s[..k']) + s[k'..]
  {
    TabReachesTabStop(s, j);
    k' := j + 1;
  }

  /** The first tab of the loop's string is the first raw tab not yet
      replaced, and everything before it is already expanded. */
  lemma LocateTab(s: string, k: nat, r: string, p: nat) returns (j: nat)
    requires k <= |s| && r == ExpandTabs(s[..k]) + s[k..]
    requires IndexOf(r, '\t') == Some(p)
    ensures k <= j < |s| && s[j] == '\t'
    ensures ExpandTabs(s[..j]) == r[..p] && |ExpandTabs(s[..j])| == p
    ensures r[p + 1..] == s[j + 1..]
  {
    var pre := ExpandTabs(s[..k]);
    ExpandHasNoTabs(0, s[..k]);
    j := FirstTabAfterPrefix(pre, s, k, r, p);
    ExpandTabFreeSuffix(s, k, j);
  }

  /** Extending a raw prefix by tab-free text extends its expansion by that
      same text. */
  lemma ExpandTabFreeSuffix(s: string, k: nat, j: nat)
    requires k <= j <= |s| && NoTabs(s[k..j])
    ensures ExpandTabs(s[..j]) == ExpandTabs(s[..k]) + s[k..j]
  {
    calc {
      ExpandTabs(s[..j]);
      { assert s[..j] == s[..k] + s[k..j]; }
      ExpandFrom(0, s[..k] + s[k..j]);
      { ExpandAppend(0, s[..k], s[k..j]); }
      ExpandTabs(s[..k]) + ExpandFrom(|ExpandTabs(s[..k])|, s[k..j]);
      { ExpandTabFree(|ExpandTabs(s[..k])|, s[k..j]); }
      ExpandTabs(s[..k]) + s[k..j];
    }
  }

  lemma FirstTabAfterPrefix(pre: string, s: string, k: nat, r: string, p: nat) returns (j: nat)
    requires k <= |s| && r == pre + s[k..] && NoTabs(pre)
    requires IndexOf(r, '\t') == Some(p)
    ensures |pre| <= p && j == k + (p - |pre|)
    ensures k <= j < |s| && s[j] == '\t' && NoTabs(s[k..j])
    ensures r[..p] == pre + s[k..j] && r[p + 1..] == s[j + 1..]
  {
    var e := |pre|;
    assert forall i :: 0 <= i < e ==> r[i] == pre[i];
    j := k + (p - e);
    assert r[e..] == s[k..];
    assert s[k..j] == r[e..p];
    forall i | 0 <= i < j - k ensures s[k..j][i] != '\t' {
      assert s[k..j][i] == r[..p][e + i];
    }
  }

  /** When no tab is left the loop's string is the full expansion. */
  lemma ConvertDone(s: string, k: nat, r: string)
    requires k <= |s| && r == ExpandTabs(s[..k]) + s[k..]
    requires IndexOf(r, '\t').None?
    ensures r == ExpandTabs(s)
  {
    var pre := ExpandTabs(s[..k]);
    assert NoTabs(s[k..]) by {
      forall i | 0 <= i < |s| - k ensures s[k..][i] != '\t' {
        assert s[k..][i] == r[|pre| + i];
      }
    }
    assert s == s[..k] + s[k..];
    ExpandAppend(0, s[..k], s[k..]);
    ExpandTabFree(|pre|, s[k..]);
  }

  /** The expanded character number grows with a non-negative raw offset. */
  lemma CharacterNumberMonotone(m: Message, m': Message)
    requires m.line == m'.line
    requires 0 <= m.characterNumber <= m'.characterNumber
    ensures GetCharacterNumber(m) <= GetCharacterNumber(m')
  {
    var a := SubstrPrefix(m.line, m.characterNumber);
    var b := SubstrPrefix(m.line, m'.characterNumber);
    assert a <= b;
    ExpandPrefix(0, a, b);
  }

  /** Without tabs the expanded character number is the raw offset capped
      at the line length. */
  lemma CharacterNumberTabFree(m: Message)
    requires NoTabs(m.line)
    ensures 0 <= m.characterNumber ==>
      GetCharacterNumber(m) == if m.characterNumber < |m.line| then m.characterNumber else |m.line|
    ensures m.characterNumber < 0 ==>
      GetCharacterNumber(m) == if |m.line| + m.characterNumber < 0 then 0 else |m.line| + m.characterNumber
  {
    var a := SubstrPrefix(m.line, m.characterNumber);
    assert NoTabs(a) by {
      forall i | 0 <= i < |a| ensures a[i] != '\t' {
        assert a[i] == m.line[i];
      }
    }
    ExpandTabFree(0, a);
  }

  /** A tab-indented line and its space-indented equivalent put the caret in
      the same column: offset 2 after a leading tab and offset 5 after four
      leading blanks both point just past the first character after the
      indentation, and both lines read the same once expanded. */
  lemma TabAlignment(kind: MessageKind, text: string, lineNumber: string, rest: string)
    requires NoTabs(rest) && |rest| >= 1
    ensures var t := NewMessage(kind, text, lineNumber, 2, "\t" + rest);
      var s := NewMessage(kind, text, lineNumber, 5, Spaces(TabWidth) + rest);
      GetCharacterNumber(t) == 5 && GetCharacterNumber(s) == 5
      && GetLineMark(t) == GetLineMark(s)
      && GetLine(t) == GetLine(s) == Spaces(TabWidth) + rest
  {
    var t := NewMessage(kind, text, lineNumber, 2, "\t" + rest);
    var s := NewMessage(kind, text, lineNumber, 5, Spaces(TabWidth) + rest);
    LeadingTab(rest);
    LeadingTab(rest[..1]);
    assert SubstrPrefix(t.line, 2) == "\t" + rest[..1];
    assert NoTabs(rest[..1]) by {
      assert rest[..1][0] == rest[0];
    }
    assert NoTabs(s.line) by {
      forall i | 0 <= i < |s.line| ensures s.line[i] != '\t' {
        if i >= TabWidth { assert s.line[i] == rest[i - TabWidth]; }
      }
    }
    CharacterNumberTabFree(s);
  }

  /** A leading tab on column 0 becomes a full tab stop of blanks. */
  lemma LeadingTab(rest: string)
    requires NoTabs(rest)
    ensures ExpandTabs("\t" + rest) == Spaces(TabWidth) + rest
  {
    assert ("\t" + rest)[1..] == rest;
    ExpandTabFree(TabWidth, rest);
  }
}
