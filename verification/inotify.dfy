/** The change source (Classes/JsWatch/Inotify.php): a long-running
    `inotifywait` process whose output lines name changed files. The process
    itself is not modelled; what is modelled is the constructor's checks, the
    stopped/running state machine, the command line, and the shape of each
    reported path. */
module Inotify {

  import opened Errors
  import opened Strings
  import opened Shell

  /** The change source: the executable found on the path, the monitored
      path, and whether a process is running. */
  datatype ChangeSource = ChangeSource(executable: string, path: string, running: bool)

  const NotFoundMessage: string := "The program inotifywait could not be found in your path."

  function PathMissingMessage(path: string): string {
    "The path \"" + path + "\" does not exist."
  }

  /** The constructor. `located` is the last line `which inotifywait`
      printed, `pathExists` what `file_exists` says about `path`. The
      executable is checked first; an empty answer (PHP `empty()`, so also
      `"0"`) means it is missing. */
  function NewChangeSource(located: string, pathExists: bool, path: string): (r: Result<ChangeSource>)
    ensures PhpEmpty(located) ==> r == Failure(Exc(MissingDependency, NotFoundMessage, InotifyNotFound))
    ensures !PhpEmpty(located) && !pathExists ==> r == Failure(Exc(InvalidPath, PathMissingMessage(path), InotifyPathMissing))
    ensures r.Success? <==> !PhpEmpty(located) && pathExists
    ensures r.Success? ==> r.value == ChangeSource(located, path, false)
  {
    if PhpEmpty(located) then Failure(Exc(MissingDependency, NotFoundMessage, InotifyNotFound))
    else if !pathExists then Failure(Exc(InvalidPath, PathMissingMessage(path), InotifyPathMissing))
    else Success(ChangeSource(located, path, false))
  }

  /** The state after a call, and the exception the call raised, if any. */
  datatype Step = Step(state: ChangeSource, raised: Option<Exc>)

  function AlreadyRunning(s: ChangeSource): Exc {
    Exc(ProcessAlreadyRunning, "The inotify process is already running on path \"" + s.path + "\".", InotifyAlreadyRunning)
  }

  const StartFailure: Exc := Exc(CommandExecution, "Unable to start inotifywait process.", InotifyStartFailed)

  /** `start`. `spawned` says whether `proc_open` succeeded. A running source
      refuses and stays running; a failed spawn leaves it stopped. */
  function Start(s: ChangeSource, spawned: bool): (t: Step)
    ensures t.state.executable == s.executable && t.state.path == s.path
    ensures s.running ==> t == Step(s, Some(AlreadyRunning(s)))
    ensures !s.running && !spawned ==> t == Step(s, Some(StartFailure))
    ensures t.raised.None? <==> !s.running && spawned
    ensures t.state.running <==> s.running || spawned
  {
    if s.running then Step(s, Some(AlreadyRunning(s)))
    else if !spawned then Step(s, Some(StartFailure))
    else Step(s.(running := true), None)
  }

  /** `stop`: a running source is stopped, a stopped one is left alone. */
  function Stop(s: ChangeSource): (s': ChangeSource)
    ensures !s'.running
    ensures s'.executable == s.executable && s'.path == s.path
    ensures !s.running ==> s' == s
  {
    if s.running then s.(running := false) else s
  }

  /** Stopping twice is stopping once, and a stopped source can be started again. */
  lemma StopThenStart(s: ChangeSource)
    ensures Stop(Stop(s)) == Stop(s)
    ensures Start(Stop(s), true) == Step(s.(running := true), None)
    ensures Start(Start(s, true).state, true).raised == Some(AlreadyRunning(s))
  {
  }

  const WaitArguments: string := "-e CLOSE_WRITE,MOVED_TO -q -m -r --format '%w%f'"

  /** `getInotifyWaitCommand`: the executable, the fixed arguments, then the
      monitored path as one quoted shell word, which the shell reads as the
      path's characters `escapeshellarg` keeps. */
  function Command(s: ChangeSource): (c: string)
    ensures |c| > |s.executable| + |WaitArguments| + 2
    ensures c[..|s.executable| + |WaitArguments| + 2] == s.executable + " " + WaitArguments + " "
    ensures ShellWord(c[|s.executable| + |WaitArguments| + 2..], false) == Some(Kept(s.path))
  {
    var head := s.executable + " " + WaitArguments + " ";
    var word := EscapeShellArg(s.path);
    EscapeShellArgRoundTrip(s.path);
    assert (head + word)[|head|..] == word;
    head + word
  }

  /** A monitored path of bytes below 128 reaches `inotifywait` unchanged. */
  lemma CommandAsciiPath(s: ChangeSource)
    requires forall i :: 0 <= i < |s.path| ==> LocaleKeeps(s.path[i])
    ensures ShellWord(Command(s)[|s.executable| + |WaitArguments| + 2..], false) == Some(s.path)
  {
    KeptAscii(s.path);
  }

  /** `getChangedFile`: the next line of the process output, trimmed. At end
      of output `fgets` gives false, which `trim` turns into the empty string:
      the result is always a string. */
  function GetChangedFile(line: Option<string>): (p: string)
    ensures line.None? ==> p == ""
    ensures line.Some? ==> IsTrimOf(line.value, p)
  {
    Trim(line.GetOr(""))
  }

  /** The path is reported back without the line feed `inotifywait` ends it with. */
  lemma ChangedFileDropsLineFeed(p: string)
    requires p == [] || (!IsTrimChar(p[0]) && !IsTrimChar(p[|p| - 1]))
    ensures GetChangedFile(Some(p + "\n")) == p
  {
    if p == [] {
      assert TrimLeft("\n") == TrimLeft("\n"[1..]);
    } else {
      assert (p + "\n")[0] == p[0];
      TrimLeftPlain(p + "\n");
      TrimRightOne(p);
    }
  }

  lemma TrimLeftPlain(s: string)
    requires |s| > 0 && !IsTrimChar(s[0])
    ensures TrimLeft(s) == s
  {
  }

  lemma TrimRightOne(p: string)
    requires p == [] || !IsTrimChar(p[|p| - 1])
    ensures TrimRight(p + "\n") == p
  {
    assert (p + "\n")[..|p|] == p;
  }
}
