/** Reporting a compilation result (Classes/JsWatch/Compiler/CompilationResultLogger.php):
    one status entry, then every error, then every warning, each in the
    string form of the message. The string form is a parameter `show`; the
    tool passes `Messages.ToString`. */
module ResultLogger {

  import opened Errors
  import opened Messages
  import opened CompilationResults
  import opened Logging

  /** The first entry: success with source and target, or failure with the
      source. Both backends always record a target. A successful result
      without one would end the PHP program with a fatal error (a method
      called on null); that case is not modelled and the text then holds
      an empty target name. */
  function StatusEntry(r: CompilationResult): (e: LogEntry)
    ensures e.level == (if r.successful then Ok else Error)
  {
    if r.successful then LogEntry(Ok, "Successfully compiled " + r.source + " to " + r.target.GetOr(""))
    else LogEntry(Error, "Failed compiling " + r.source)
  }

  /** One entry per message at `level`, in list order. */
  function MessageEntries(show: Message -> string, level: Level, ms: seq<Message>): (es: seq<LogEntry>)
    ensures |es| == |ms|
    ensures forall k :: 0 <= k < |ms| ==> es[k] == LogEntry(level, show(ms[k]))
    decreases |ms|
  {
    if |ms| == 0 then [] else [LogEntry(level, show(ms[0]))] + MessageEntries(show, level, ms[1..])
  }

  /** `logCompilationResult`: the status entry, each error at error level,
      then each warning at warning level; errors are reported even for a
      successful result. */
  function LogCompilationResult(show: Message -> string, r: CompilationResult): (log: seq<LogEntry>)
    ensures |log| == 1 + |r.errors| + |r.warnings|
    ensures log[0] == StatusEntry(r)
    ensures forall k :: 0 <= k < |r.errors| ==> log[1 + k] == LogEntry(Error, show(r.errors[k]))
    ensures forall k :: 0 <= k < |r.warnings| ==> log[1 + |r.errors| + k] == LogEntry(Warning, show(r.warnings[k]))
  {
    [StatusEntry(r)] + MessageEntries(show, Error, r.errors) + MessageEntries(show, Warning, r.warnings)
  }

  /** The entries after the status entry are ordered by level: each is an
      error or a warning, and no error follows a warning. */
  lemma ErrorsBeforeWarnings(show: Message -> string, r: CompilationResult, i: nat, j: nat)
    requires 1 <= i < j < |LogCompilationResult(show, r)|
    ensures LogCompilationResult(show, r)[i].level in {Error, Warning}
    ensures LogCompilationResult(show, r)[j].level == Error ==> LogCompilationResult(show, r)[i].level == Error
  {
    EntryLevel(show, r, i);
    EntryLevel(show, r, j);
  }

  /** An entry after the status entry is an error exactly when it lies
      within the first `|r.errors|` of them, and a warning otherwise. */
  lemma EntryLevel(show: Message -> string, r: CompilationResult, i: nat)
    requires 1 <= i < |LogCompilationResult(show, r)|
    ensures LogCompilationResult(show, r)[i].level == if i <= |r.errors| then Error else Warning
  {
    var log := LogCompilationResult(show, r);
    if i <= |r.errors| {
      assert log[1 + (i - 1)] == LogEntry(Error, show(r.errors[i - 1]));
    } else {
      assert log[1 + |r.errors| + (i - 1 - |r.errors|)] == LogEntry(Warning, show(r.warnings[i - 1 - |r.errors|]));
    }
  }
}
