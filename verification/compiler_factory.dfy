/** Choosing a backend (Classes/JsWatch/Compiler/CompilerFactory.php): the
    candidates are tried in a fixed order and the first one whose
    construction does not raise MissingDependencyException is used.

    Whether constructing a backend succeeds depends on checks this model
    does not see (a java binary, a reachable service), so it is an input:
    `construct` says, for each backend, what its constructor does. */
module CompilerFactory {

  import opened Errors
  import opened Logging
  import opened Compilers

  /** What one constructor call does. */
  datatype Construction = Constructed | Raises(e: Exc)

  /** A construction the factory steps over: the constructor raised
      MissingDependencyException. */
  predicate Skipped(c: Construction) {
    c.Raises? && c.e.kind == MissingDependency
  }

  /** A candidate: the backend and the class name the factory logs for it. */
  datatype Candidate = Candidate(backend: Backend, className: string)

  /** The factory: its ordered list of candidate compiler classes. */
  datatype Factory = Factory(candidates: seq<Candidate>)

  /** The private constructor: the local application first, then the service. */
  function NewFactory(): (f: Factory)
    ensures |f.candidates| == 2
    ensures f.candidates[0].backend == ClosureApplication && f.candidates[1].backend == ClosureService
  {
    Factory([Candidate(ClosureApplication, "JsWatch\\Compiler\\GoogleClosureCompilerApplication"),
             Candidate(ClosureService, "JsWatch\\Compiler\\GoogleClosureCompilerService")])
  }

  /** `getInstance` over the static slot: the stored factory if there is one,
      a new one otherwise; the slot holds the returned factory afterwards. */
  function GetInstance(slot: Option<Factory>): (r: (Factory, Option<Factory>))
    ensures r.1 == Some(r.0)
    ensures slot.Some? ==> r.0 == slot.value
    ensures slot.None? ==> r.0 == NewFactory()
  {
    match slot
    case Some(f) => (f, slot)
    case None => var f := NewFactory(); (f, Some(f))
  }

  /** Every call of `getInstance` after the first returns the first call's factory. */
  lemma InstanceIsShared(slot: Option<Factory>)
    ensures var (f, slot') := GetInstance(slot);
      GetInstance(slot').0 == f && GetInstance(slot').1 == slot'
  {
  }

  const NoCompilerMessage: string := "Could not instantiate any compiler"

  /** The exception raised when every candidate was skipped. */
  const NoCompiler: Exc := Exc(MissingDependency, NoCompilerMessage, NoCompilerAvailable)

  /** Reference definition of the selection: the first candidate that is not
      skipped decides, by constructing or by raising. */
  function Select(cs: seq<Candidate>, construct: Backend -> Construction): Result<Backend> {
    if |cs| == 0 then Failure(NoCompiler)
    else
      match construct(cs[0].backend)
      case Constructed => Success(cs[0].backend)
      case Raises(e) => if e.kind == MissingDependency then Select(cs[1..], construct) else Failure(e)
  }

  /** The debug entry logged for a candidate, if any: one when it was
      constructed, one when it was skipped, none when it raised anything else. */
  function EntryFor(cand: Candidate, c: Construction): Option<LogEntry> {
    match c
    case Constructed => Some(LogEntry(Debug, "Using compiler " + cand.className + "."))
    case Raises(e) =>
      if e.kind == MissingDependency then Some(LogEntry(Debug, "Not using compiler " + cand.className + ". " + e.message))
      else None
  }

  /** `getNewCompiler`: tries the candidates in order and returns the selected
      backend (or the exception), the debug log, and how many constructors ran.
      Every call starts again from the first candidate. */
  method GetNewCompiler(f: Factory, construct: Backend -> Construction)
    returns (r: Result<Backend>, log: seq<LogEntry>, tried: nat)
    ensures r == Select(f.candidates, construct)
    ensures tried <= |f.candidates|
    ensures forall k :: 0 <= k < tried - 1 ==> Skipped(construct(f.candidates[k].backend))
    ensures r.Success? <==> tried > 0 && construct(f.candidates[tried - 1].backend).Constructed?
    ensures r.Success? ==> r.value == f.candidates[tried - 1].backend
    ensures tried < |f.candidates| ==> tried > 0 && !Skipped(construct(f.candidates[tried - 1].backend))
    ensures tried == 0 || Skipped(construct(f.candidates[tried - 1].backend)) ==> tried == |f.candidates| && r == Failure(NoCompiler)
    ensures |log| == (if tried > 0 && construct(f.candidates[tried - 1].backend).Raises? &&
                        !Skipped(construct(f.candidates[tried - 1].backend)) then tried - 1 else tried)
    ensures forall k :: 0 <= k < |log| ==> Some(log[k]) == EntryFor(f.candidates[k], construct(f.candidates[k].backend))
  {
    var cs := f.candidates;
    log := [];
    tried := 0;
    while tried < |cs|
      invariant tried <= |cs|
      invariant Select(cs[tried..], construct) == Select(cs, construct)
      invariant forall k :: 0 <= k < tried ==> Skipped(construct(cs[k].backend))
      invariant |log| == tried
      invariant forall k :: 0 <= k < tried ==> Some(log[k]) == EntryFor(cs[k], construct(cs[k].backend))
    {
      var b := cs[tried];
      var c := construct(b.backend);
      assert cs[tried..][0] == b && cs[tried..][1..] == cs[tried + 1..];
      if c.Raises? && !Skipped(c) {
        r := Failure(c.e);
        tried := tried + 1;
        return;
      }
      log := log + [EntryFor(b, c).value];
      tried := tried + 1;
      if c.Constructed? {
        r := Success(b.backend);
        return;
      }
    }
    r := Failure(NoCompiler);
  }

  /** A backend that constructs is selected exactly when every candidate before
      it was skipped; candidates after it are never constructed. */
  lemma {:induction false} SelectFirst(cs: seq<Candidate>, construct: Backend -> Construction, i: nat)
    requires i < |cs| && construct(cs[i].backend) == Constructed
    requires forall k :: 0 <= k < i ==> Skipped(construct(cs[k].backend))
    ensures Select(cs, construct) == Success(cs[i].backend)
    decreases i
  {
    if i > 0 {
      assert Skipped(construct(cs[0].backend));
      SelectFirst(cs[1..], construct, i - 1);
    }
  }

  /** With the factory's own candidates: the application is used whenever it
      constructs; otherwise the service is tried only after the application
      reported a missing dependency. */
  lemma DefaultOrder(construct: Backend -> Construction)
    ensures construct(ClosureApplication) == Constructed ==>
      Select(NewFactory().candidates, construct) == Success(ClosureApplication)
    ensures Skipped(construct(ClosureApplication)) && construct(ClosureService) == Constructed ==>
      Select(NewFactory().candidates, construct) == Success(ClosureService)
    ensures Skipped(construct(ClosureApplication)) && Skipped(construct(ClosureService)) ==>
      Select(NewFactory().candidates, construct) == Failure(NoCompiler)
    ensures construct(ClosureApplication).Raises? && !Skipped(construct(ClosureApplication)) ==>
      Select(NewFactory().candidates, construct) == Failure(construct(ClosureApplication).e)
  {
    var cs := NewFactory().candidates;
    assert cs[1..] == [cs[1]] && cs[1..][1..] == [];
  }
}
