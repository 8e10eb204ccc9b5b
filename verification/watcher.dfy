/** The JavaScript watcher (Classes/JsWatch/Watcher/CompileJavaScriptWatcher.php):
    which paths it is responsible for, when a compiled file is up to date,
    and what processing a changed file logs. */
module JavaScriptWatcher {

  import opened Errors
  import opened Strings
  import opened Messages
  import opened CompilationResults
  import opened Logging
  import opened Compilers
  import opened ResultLogger
  import FileSystemMonitor

  /** The look-behind `(?<![.-]min)` fails at position `i`: the four
      characters before `i` are `.min` or `-min`. */
  predicate MinBefore(p: string, i: int) {
    4 <= i <= |p| && (p[i - 4] == '.' || p[i - 4] == '-') && p[i - 3..i] == "min"
  }

  /** `\.js` ends at position `e` and is not preceded by `.min` or `-min`. */
  predicate JsEndsAt(p: string, e: int) {
    3 <= e <= |p| && p[e - 3..e] == ".js" && !MinBefore(p, e - 3)
  }

  /** `watchesFile`: the pattern `/(?<![.-]min)\.js$/`. Without the `D`
      modifier PCRE's `$` matches at the very end and also just before a
      final line feed. */
  predicate WatchesFile(p: string) {
    JsEndsAt(p, |p|) || (|p| > 0 && p[|p| - 1] == '\n' && JsEndsAt(p, |p| - 1))
  }

  /** For a path without a final line feed the pattern is a suffix test:
      the path ends in `.js` and not in `.min.js` or `-min.js`. */
  lemma WatchesFileBySuffix(p: string)
    requires p == [] || p[|p| - 1] != '\n'
    ensures WatchesFile(p) <==> EndsWith(p, ".js") && !EndsWith(p, ".min.js") && !EndsWith(p, "-min.js")
  {
    if EndsWith(p, ".js") && |p| >= 7 {
      var n := |p|;
      assert p[n - 7..] == [p[n - 7]] + p[n - 6..n - 3] + p[n - 3..];
      assert ".min.js" == ['.'] + "min" + ".js";
      assert "-min.js" == ['-'] + "min" + ".js";
      assert EndsWith(p, ".min.js") <==> p[n - 7] == '.' && p[n - 6..n - 3] == "min";
      assert EndsWith(p, "-min.js") <==> p[n - 7] == '-' && p[n - 6..n - 3] == "min";
    }
  }

  /** The edge cases: only the four characters before `.js` matter, and the
      test is case-sensitive. */
  lemma WatchesFileExamples()
    ensures WatchesFile("min.js") && WatchesFile("xmin.js") && WatchesFile("x_min.js") && WatchesFile(".js")
    ensures !WatchesFile("x.min.js") && !WatchesFile("x-min.js") && !WatchesFile("x.JS")
  {
    WatchesFileBySuffix("min.js");
    WatchesFileBySuffix("xmin.js");
    WatchesFileBySuffix("x_min.js");
    WatchesFileBySuffix(".js");
    WatchesFileBySuffix("x.min.js");
    WatchesFileBySuffix("x-min.js");
    WatchesFileBySuffix("x.JS");
  }

  /** A name ending in a line feed is watched too. */
  lemma WatchesFileBeforeFinalLineFeed()
    ensures WatchesFile("x.js\n") && !WatchesFile("x.js\n\n")
  {
    var p := "x.js\n";
    assert p[|p| - 4..|p| - 1] == ".js";
    var q := "x.js\n\n";
    assert q[|q| - 3..][2] == '\n';
    assert q[|q| - 4..|q| - 1][2] == '\n';
  }

  /** No feedback loop: the default target of any path is never watched, so
      writing a compiled file does not trigger another compilation. */
  lemma TargetNotWatched(p: string)
    ensures !WatchesFile(GetTargetFileName(p))
  {
    MinJsNotWatched(GetTargetFileName(p));
  }

  /** Any name ending in `.min.js` is left alone. */
  lemma MinJsNotWatched(t: string)
    requires EndsWith(t, ".min.js")
    ensures !WatchesFile(t)
  {
    assert t[|t| - 1] == 's';
    assert t[|t| - 3..] == t[|t| - 7..][4..];
    assert t[|t| - 7..|t| - 3] == t[|t| - 7..][..4];
  }

  /** The watcher: its compiler is chosen once, when it is constructed. */
  datatype JsWatcher = JsWatcher(compiler: Backend)

  /** The constructor: a failure of the compiler selection propagates. */
  function NewWatcher(selection: Result<Backend>): (r: Result<JsWatcher>)
    ensures r.Success? <==> selection.Success?
    ensures r.Success? ==> r.value.compiler == selection.value
    ensures r.Failure? ==> r.error == selection.error
  {
    match selection
    case Success(b) => Success(JsWatcher(b))
    case Failure(e) => Failure(e)
  }

  /** What `SplFileInfo::getMTime` raises for a path it cannot stat. */
  function MTimeFailure(p: string): Exc {
    Exc(Runtime, "SplFileInfo::getMTime(): stat failed for " + p, 0)
  }

  /** `checkFile`: up to date iff the target is strictly newer than the
      source. The target's time is read first, and a file whose time cannot
      be read raises instead of counting as out of date. `mtime` gives the
      modification time of each existing file. */
  function CheckFile(w: JsWatcher, mtime: string -> Option<int>, fileName: string): (r: Result<bool>)
    ensures var t := GetTargetFileName(fileName);
      && (mtime(t).None? ==> r == Failure(MTimeFailure(t)))
      && (mtime(t).Some? && mtime(fileName).None? ==> r == Failure(MTimeFailure(fileName)))
      && (r.Success? <==> mtime(t).Some? && mtime(fileName).Some?)
      && (r.Success? ==> (r.value <==> mtime(t).value > mtime(fileName).value))
  {
    var target := GetTargetFileName(fileName);
    match mtime(target)
    case None => Failure(MTimeFailure(target))
    case Some(targetTime) =>
      match mtime(fileName)
      case None => Failure(MTimeFailure(fileName))
      case Some(sourceTime) => Success(targetTime > sourceTime)
  }

  /** Equal times mean out of date: a target written in the same second as
      its source is compiled again. */
  lemma EqualTimesNotUpToDate(w: JsWatcher, mtime: string -> Option<int>, fileName: string)
    requires mtime(fileName).Some? && mtime(GetTargetFileName(fileName)) == mtime(fileName)
    ensures CheckFile(w, mtime, fileName) == Success(false)
  {
  }

  /** What `processFile` leaves behind: the entries it logged and the
      exception it let through, if any. */
  datatype ProcessOutcome = ProcessOutcome(log: seq<LogEntry>, raised: Option<Exc>)

  function DetectedEntry(fileName: string): LogEntry {
    LogEntry(Info, "Detected change for " + fileName + ", compiling...")
  }

  /** `processFile`: logs the detection, compiles with the watcher's own
      compiler (`compile` gives what `compileFile` returns or raises for each
      backend and path), and reports the result. A CommandExecutionException
      is logged as critical; any other exception is passed on. */
  function ProcessFile(w: JsWatcher, compile: (Backend, string) -> Result<CompilationResult>, fileName: string)
    : (o: ProcessOutcome)
    ensures |o.log| >= 1 && o.log[0] == DetectedEntry(fileName)
    ensures var c := compile(w.compiler, fileName);
      && (o.raised.Some? <==> c.Failure? && c.error.kind != CommandExecution)
      && (o.raised.Some? ==> o.raised.value == c.error && |o.log| == 1)
      && (c.Failure? && c.error.kind == CommandExecution ==> o.log[1..] == [LogEntry(Critical, c.error.message)])
      && (c.Success? ==> o.log[1..] == LogCompilationResult(ToString, c.value))
  {
    var detected := DetectedEntry(fileName);
    match compile(w.compiler, fileName)
    case Success(r) => ProcessOutcome([detected] + LogCompilationResult(ToString, r), None)
    case Failure(e) =>
      if e.kind == CommandExecution then ProcessOutcome([detected, LogEntry(Critical, e.message)], None)
      else ProcessOutcome([detected], Some(e))
  }

  /** A compile failure never escapes `processFile` as a CommandExecutionException. */
  lemma ProcessNeverRaisesCommandExecution(w: JsWatcher, compile: (Backend, string) -> Result<CompilationResult>,
                                           fileName: string)
    ensures ProcessFile(w, compile, fileName).raised.Some? ==>
      ProcessFile(w, compile, fileName).raised.value.kind != CommandExecution
  {
  }

  /** The watcher as the monitor sees it. */
  function AsWatcher(w: JsWatcher, mtime: string -> Option<int>, compile: (Backend, string) -> Result<CompilationResult>)
    : (v: FileSystemMonitor.Watcher)
    ensures forall p :: v.watches(p) == WatchesFile(p)
    ensures forall p :: v.check(p) == CheckFile(w, mtime, p)
    ensures forall p :: v.process(p) == ProcessFile(w, compile, p).raised
  {
    FileSystemMonitor.Watcher(WatchesFile, p => CheckFile(w, mtime, p), p => ProcessFile(w, compile, p).raised)
  }

  /** Whatever else is registered and whatever is forced, the monitor never
      has this watcher check or compile a file it wrote itself. */
  lemma TargetNeverCompiled(ws: seq<FileSystemMonitor.Watcher>, j: nat, w: JsWatcher, mtime: string -> Option<int>,
                            compile: (Backend, string) -> Result<CompilationResult>, p: string, force: bool)
    requires j < |ws| && ws[j] == AsWatcher(w, mtime, compile)
    ensures var t := FileSystemMonitor.CallWatchersForFile(ws, GetTargetFileName(p), force);
      FileSystemMonitor.Checked(j, GetTargetFileName(p)) !in t.calls &&
      FileSystemMonitor.Processed(j, GetTargetFileName(p)) !in t.calls
  {
    TargetNotWatched(p);
    FileSystemMonitor.UnwatchedNotCalled(ws, GetTargetFileName(p), force, 0, j);
  }
}
