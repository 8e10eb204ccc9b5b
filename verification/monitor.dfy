/** The monitor (Classes/JsWatch/FileSystemMonitor.php): it hands every file
    of the initial walk, and then every changed file the change source
    reports, to the registered watchers.

    A watcher is seen through the three calls of
    Classes/JsWatch/Watcher/WatcherInterface.php, each a function of the
    path; `check` and `process` may raise, and a raised exception leaves the
    monitor. Each call made is recorded in a trace, so the dispatch rule can
    be stated. The directory walk and the change source's output lines are
    inputs. */
module FileSystemMonitor {

  import opened Errors
  import opened Inotify

  /** A watcher: `watches` is `watchesFile`, `check` is `checkFile` (true:
      up to date), `process` is `processFile` (the exception it raises, if any). */
  datatype Watcher = Watcher(watches: string -> bool, check: string -> Result<bool>, process: string -> Option<Exc>)

  /** One `checkFile` or `processFile` call, with the watcher's position in
      registration order. */
  datatype Call = Checked(watcher: nat, path: string) | Processed(watcher: nat, path: string)

  /** The calls made, in order, and the exception that ended them, if any. */
  datatype Trace = Trace(calls: seq<Call>, raised: Option<Exc>)

  datatype Monitor = Monitor(path: string, source: ChangeSource, watchers: seq<Watcher>)

  function PathMissingMessage(path: string): string {
    "The path \"" + path + "\" does not exist"
  }

  /** The constructor: the path is checked before the change source is
      built, so a missing path is reported with the monitor's own code even
      when `inotifywait` is missing too. */
  function NewMonitor(path: string, pathExists: bool, located: string): (r: Result<Monitor>)
    ensures !pathExists ==> r == Failure(Exc(InvalidPath, PathMissingMessage(path), MonitorPathMissing))
    ensures pathExists ==> (r.Success? <==> NewChangeSource(located, true, path).Success?)
    ensures pathExists && r.Failure? ==> r.error == NewChangeSource(located, true, path).error
    ensures r.Success? ==> r.value.path == path && r.value.watchers == [] && !r.value.source.running
  {
    if !pathExists then Failure(Exc(InvalidPath, PathMissingMessage(path), MonitorPathMissing))
    else
      match NewChangeSource(located, pathExists, path)
      case Failure(e) => Failure(e)
      case Success(s) => Success(Monitor(path, s, []))
  }

  /** `addWatcher`: appended at the end, duplicates included. */
  function AddWatcher(m: Monitor, w: Watcher): (m': Monitor)
    ensures |m'.watchers| == |m.watchers| + 1 && m'.watchers[..|m.watchers|] == m.watchers
    ensures m'.watchers[|m.watchers|] == w
    ensures m'.path == m.path && m'.source == m.source
  {
    m.(watchers := m.watchers + [w])
  }

  function Prepend(cs: seq<Call>, t: Trace): Trace {
    Trace(cs + t.calls, t.raised)
  }

  /** The last part of `callWatchersForFile`: watchers `i` onwards. A watcher
      that does not watch the path is not asked anything else; with `force`
      the up-to-date check is skipped. */
  function CallFrom(ws: seq<Watcher>, file: string, force: bool, i: nat): Trace
    requires i <= |ws|
    decreases |ws| - i
  {
    if i == |ws| then Trace([], None)
    else if !ws[i].watches(file) then CallFrom(ws, file, force, i + 1)
    else
      var checked := if force then [] else [Checked(i, file)];
      var due := if force then Success(false) else ws[i].check(file);
      match due
      case Failure(e) => Trace(checked, Some(e))
      case Success(upToDate) =>
        if upToDate then Prepend(checked, CallFrom(ws, file, force, i + 1))
        else
          var raised := ws[i].process(file);
          if raised.Some? then Trace(checked + [Processed(i, file)], raised)
          else Prepend(checked + [Processed(i, file)], CallFrom(ws, file, force, i + 1))
  }

  /** `callWatchersForFile`. */
  function CallWatchersForFile(ws: seq<Watcher>, file: string, force: bool): Trace {
    CallFrom(ws, file, force, 0)
  }

  /** The dispatch rule: watcher `j` processes `p` iff it watches `p` and
      processing is forced or `p` is not up to date. */
  predicate Processes(ws: seq<Watcher>, j: int, p: string, force: bool) {
    0 <= j < |ws| && ws[j].watches(p) && (force || ws[j].check(p) == Success(false))
  }

  /** None of the watchers raises for this path. */
  predicate Quiet(ws: seq<Watcher>, file: string, force: bool) {
    forall j :: 0 <= j < |ws| && ws[j].watches(file) ==>
      (!force ==> ws[j].check(file).Success?) &&
      (force || ws[j].check(file) == Success(false) ==> ws[j].process(file).None?)
  }

  /** Every call made is about the given path and by a watcher from `i` on. */
  lemma {:induction false} CallsWithin(ws: seq<Watcher>, file: string, force: bool, i: nat)
    requires i <= |ws|
    ensures forall c :: c in CallFrom(ws, file, force, i).calls ==> c.path == file && i <= c.watcher < |ws|
    decreases |ws| - i
  {
    if i < |ws| {
      CallsWithin(ws, file, force, i + 1);
    }
  }

  /** Whatever the watchers raise: a watcher that does not watch the path is
      neither checked nor asked to process it, and with `force` no watcher
      is checked. */
  lemma {:induction false} UnwatchedNotCalled(ws: seq<Watcher>, file: string, force: bool, i: nat, j: nat)
    requires i <= |ws|
    requires j < |ws| ==> !ws[j].watches(file)
    ensures Checked(j, file) !in CallFrom(ws, file, force, i).calls
    ensures Processed(j, file) !in CallFrom(ws, file, force, i).calls
    ensures force ==> forall c :: c in CallFrom(ws, file, force, i).calls ==> c.Processed?
    decreases |ws| - i
  {
    if i < |ws| {
      UnwatchedNotCalled(ws, file, force, i + 1, j);
      CallsWithin(ws, file, force, i + 1);
    }
  }

  /** When no watcher raises, the calls follow the dispatch rule: watcher
      `j` processes the path iff `Processes` holds, and is asked whether it
      is up to date iff it watches the path and processing is not forced. */
  lemma {:induction false} DispatchRule(ws: seq<Watcher>, file: string, force: bool, i: nat)
    requires i <= |ws| && Quiet(ws, file, force)
    ensures CallFrom(ws, file, force, i).raised.None?
    ensures forall j: nat :: Processed(j, file) in CallFrom(ws, file, force, i).calls <==>
      i <= j && Processes(ws, j, file, force)
    ensures forall j: nat :: Checked(j, file) in CallFrom(ws, file, force, i).calls <==>
      i <= j < |ws| && ws[j].watches(file) && !force
    decreases |ws| - i
  {
    if i < |ws| {
      DispatchRule(ws, file, force, i + 1);
      CallsWithin(ws, file, force, i + 1);
    }
  }

  /** The calls are in registration order, and a watcher that is both
      checked and processed is checked first. */
  lemma {:induction false} CallsInOrder(ws: seq<Watcher>, file: string, force: bool, i: nat, a: nat, b: nat)
    requires i <= |ws|
    requires a < b < |CallFrom(ws, file, force, i).calls|
    ensures CallFrom(ws, file, force, i).calls[a].watcher <= CallFrom(ws, file, force, i).calls[b].watcher
    ensures CallFrom(ws, file, force, i).calls[a].watcher == CallFrom(ws, file, force, i).calls[b].watcher ==>
      CallFrom(ws, file, force, i).calls[a].Checked? && CallFrom(ws, file, force, i).calls[b].Processed?
    decreases |ws| - i
  {
    var t := CallFrom(ws, file, force, i);
    var rest := CallFrom(ws, file, force, i + 1);
    if !ws[i].watches(file) {
      CallsInOrder(ws, file, force, i + 1, a, b);
    } else {
      var checked := if force then [] else [Checked(i, file)];
      var due := if force then Success(false) else ws[i].check(file);
      var own := if due == Success(true) then checked else checked + [Processed(i, file)];
      assert forall c :: c in own ==> c.watcher == i;
      assert t.calls == own || t.calls == own + rest.calls;
      if b < |own| {
        assert own == [Checked(i, file), Processed(i, file)];
      } else {
        assert t.calls == own + rest.calls;
        CallsWithin(ws, file, force, i + 1);
        assert t.calls[b] == rest.calls[b - |own|];
        if a < |own| {
          assert t.calls[a] in own;
        } else {
          assert t.calls[a] == rest.calls[a - |own|];
          CallsInOrder(ws, file, force, i + 1, a - |own|, b - |own|);
        }
      }
    }
  }

  /** The files of one phase, each handed to `callWatchersForFile` in order;
      an exception ends the phase and everything after it. */
  function Dispatch(ws: seq<Watcher>, files: seq<string>, force: bool): Trace
    decreases |files|
  {
    if |files| == 0 then Trace([], None)
    else
      var t := CallWatchersForFile(ws, files[0], force);
      if t.raised.Some? then t else Prepend(t.calls, Dispatch(ws, files[1..], force))
  }

  /** When no watcher raises for any of the files, a phase processes exactly
      the (watcher, file) pairs of the dispatch rule. */
  lemma {:induction false} DispatchFiles(ws: seq<Watcher>, files: seq<string>, force: bool)
    requires forall k :: 0 <= k < |files| ==> Quiet(ws, files[k], force)
    ensures Dispatch(ws, files, force).raised.None?
    ensures forall j: nat, p :: Processed(j, p) in Dispatch(ws, files, force).calls <==>
      p in files && Processes(ws, j, p, force)
    decreases |files|
  {
    if |files| > 0 {
      DispatchRule(ws, files[0], force, 0);
      CallsWithin(ws, files[0], force, 0);
      DispatchFiles(ws, files[1..], force);
      assert forall p :: p in files <==> p == files[0] || p in files[1..];
    }
  }

  /** The paths the live loop receives: one per output line of the change
      source, including the end of its output, which arrives as `""`. */
  function ChangedFiles(lines: seq<Option<string>>): (ps: seq<string>)
    ensures |ps| == |lines|
    ensures forall k :: 0 <= k < |lines| ==> ps[k] == GetChangedFile(lines[k])
  {
    seq(|lines|, k requires 0 <= k < |lines| => GetChangedFile(lines[k]))
  }

  /** The loop guard `!== FALSE` never fires: the end of the output is
      dispatched like any other path, so the loop runs through every line. */
  lemma LoopNeverEnds(lines: seq<Option<string>>, k: nat)
    requires k < |lines| && lines[k].None?
    ensures ChangedFiles(lines)[k] == ""
  {
  }

  /** What `run` leaves behind: the change source and the calls made. */
  datatype RunOutcome = RunOutcome(source: ChangeSource, trace: Trace)

  /** `run`: start the change source, walk every leaf of the tree without
      forcing, then dispatch every reported path with forcing. `spawned` is
      whether the process could be started, `leaves` the walk's paths in
      iteration order, `lines` the process output. */
  function Run(m: Monitor, spawned: bool, leaves: seq<string>, lines: seq<Option<string>>): (o: RunOutcome)
    ensures Start(m.source, spawned).raised.Some? ==>
      o == RunOutcome(m.source, Trace([], Start(m.source, spawned).raised))
    ensures Start(m.source, spawned).raised.None? ==> o.source.running
    ensures Start(m.source, spawned).raised.None? && Dispatch(m.watchers, leaves, false).raised.Some? ==>
      o.trace == Dispatch(m.watchers, leaves, false)
    ensures Start(m.source, spawned).raised.None? && Dispatch(m.watchers, leaves, false).raised.None? ==>
      var walk := Dispatch(m.watchers, leaves, false).calls;
      |o.trace.calls| >= |walk| && o.trace.calls[..|walk|] == walk &&
      o.trace == Prepend(walk, Dispatch(m.watchers, ChangedFiles(lines), true))
  {
    var started := Start(m.source, spawned);
    if started.raised.Some? then RunOutcome(started.state, Trace([], started.raised))
    else
      var walk := Dispatch(m.watchers, leaves, false);
      if walk.raised.Some? then RunOutcome(started.state, walk)
      else RunOutcome(started.state, Prepend(walk.calls, Dispatch(m.watchers, ChangedFiles(lines), true)))
  }

  /** A file that is up to date is left alone by the walk but processed
      again when the change source reports it. */
  lemma ForcedReprocessesUpToDate(m: Monitor, j: nat, p: string, lines: seq<Option<string>>)
    requires !m.source.running
    requires j < |m.watchers| && m.watchers[j].watches(p) && m.watchers[j].check(p) == Success(true)
    requires Quiet(m.watchers, p, false)
    requires forall k :: 0 <= k < |lines| ==> Quiet(m.watchers, ChangedFiles(lines)[k], true)
    requires p in ChangedFiles(lines)
    ensures Processed(j, p) !in Dispatch(m.watchers, [p], false).calls
    ensures Processed(j, p) in Run(m, true, [p], lines).trace.calls
  {
    DispatchFiles(m.watchers, [p], false);
    DispatchFiles(m.watchers, ChangedFiles(lines), true);
  }
}
