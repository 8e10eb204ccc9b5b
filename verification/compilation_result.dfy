/** The outcome of one compilation (Classes/JsWatch/Compiler/CompilationResult.php):
    source and target paths, a success flag, the compiled code, and the
    errors and warnings in the order they were added. */
module CompilationResults {

  import opened Errors
  import opened Messages

  datatype CompilationResult = CompilationResult(
    source: string,
    target: Option<string>,
    successful: bool,
    compiledCode: Option<string>,
    errors: seq<Message>,
    warnings: seq<Message>)

  /** A successful result carries compiled code. The class does not enforce
      this; each backend states it of its own results. */
  predicate CodeIfSuccessful(r: CompilationResult) {
    r.successful ==> r.compiledCode.Some?
  }

  /** The constructor: no target and unsuccessful unless given, no compiled
      code, no diagnostics. */
  function NewResult(source: string, target: Option<string> := None, successful: bool := false): (r: CompilationResult)
    ensures r.source == source && r.target == target && r.successful == successful
    ensures r.compiledCode.None? && r.errors == [] && r.warnings == []
  {
    CompilationResult(source, target, successful, None, [], [])
  }

  function SetTargetFile(r: CompilationResult, target: string): (r': CompilationResult)
    ensures r'.target == Some(target)
    ensures r'.(target := r.target) == r
  {
    r.(target := Some(target))
  }

  function SetSuccessful(r: CompilationResult, successful: bool): (r': CompilationResult)
    ensures r'.successful == successful
    ensures r'.(successful := r.successful) == r
  {
    r.(successful := successful)
  }

  function SetCompiledCode(r: CompilationResult, code: string): (r': CompilationResult)
    ensures r'.compiledCode == Some(code)
    ensures r'.(compiledCode := r.compiledCode) == r
  {
    r.(compiledCode := Some(code))
  }

  function SetErrors(r: CompilationResult, errors: seq<Message>): (r': CompilationResult)
    ensures r'.errors == errors
    ensures r'.(errors := r.errors) == r
  {
    r.(errors := errors)
  }

  function SetWarnings(r: CompilationResult, warnings: seq<Message>): (r': CompilationResult)
    ensures r'.warnings == warnings
    ensures r'.(warnings := r.warnings) == r
  {
    r.(warnings := warnings)
  }

  /** `addError` only accepts an Error (the parameter's class). */
  function AddError(r: CompilationResult, error: Message): (r': CompilationResult)
    requires error.kind == ErrorMessage
    ensures |r'.errors| == |r.errors| + 1 && r'.errors[..|r.errors|] == r.errors
    ensures r'.errors[|r.errors|] == error
    ensures r'.(errors := r.errors) == r
  {
    r.(errors := r.errors + [error])
  }

  /** `addWarning` only accepts a Warning. */
  function AddWarning(r: CompilationResult, warning: Message): (r': CompilationResult)
    requires warning.kind == WarningMessage
    ensures |r'.warnings| == |r.warnings| + 1 && r'.warnings[..|r.warnings|] == r.warnings
    ensures r'.warnings[|r.warnings|] == warning
    ensures r'.(warnings := r.warnings) == r
  {
    r.(warnings := r.warnings + [warning])
  }

  /** The class name PHP's `get_class` reports for a message. */
  function ClassName(k: MessageKind): string {
    match k
    case PlainMessage => "JsWatch\\Compiler\\Message"
    case ErrorMessage => "JsWatch\\Compiler\\Error"
    case WarningMessage => "JsWatch\\Compiler\\Warning"
  }

  /** `addMessage`: a Warning goes to the warnings, an Error to the errors,
      anything else is refused with InvalidArgumentException and adds nothing. */
  function AddMessage(r: CompilationResult, m: Message): (res: Result<CompilationResult>)
    ensures m.kind == WarningMessage ==> res == Success(AddWarning(r, m))
    ensures m.kind == ErrorMessage ==> res == Success(AddError(r, m))
    ensures m.kind == PlainMessage ==>
              res.Failure? && res.error.kind == InvalidArgument && res.error.code == MessageNotClassified
  {
    match m.kind
    case WarningMessage => Success(AddWarning(r, m))
    case ErrorMessage => Success(AddError(r, m))
    case PlainMessage =>
      Failure(Exc(InvalidArgument,
                  "Message must be either a warning or an error,  but is a " + ClassName(m.kind),
                  MessageNotClassified))
  }

  /** The messages of `ms` of kind `k`, in order. */
  function OfKind(ms: seq<Message>, k: MessageKind): (r: seq<Message>)
    ensures |r| <= |ms|
    ensures forall i :: 0 <= i < |r| ==> r[i].kind == k
    ensures forall m :: m in r <==> m in ms && m.kind == k
  {
    if |ms| == 0 then []
    else (if ms[0].kind == k then [ms[0]] else []) + OfKind(ms[1..], k)
  }

  /** Selection distributes over concatenation: the messages of kind `k`
      keep their relative order and their multiplicity. */
  lemma {:induction false} OfKindAppend(a: seq<Message>, b: seq<Message>, k: MessageKind)
    ensures OfKind(a + b, k) == OfKind(a, k) + OfKind(b, k)
    decreases |a|
  {
    if |a| > 0 {
      var h := if a[0].kind == k then [a[0]] else [];
      assert (a + b)[0] == a[0];
      assert (a + b)[1..] == a[1..] + b;
      OfKindCons(a + b, k);
      OfKindAppend(a[1..], b, k);
      OfKindCons(a, k);
      Associative(h, OfKind(a[1..], k), OfKind(b, k));
    } else {
      assert a + b == b;
    }
  }

  /** Regrouping a concatenation of three message lists. */
  lemma Associative(x: seq<Message>, y: seq<Message>, z: seq<Message>)
    ensures x + (y + z) == (x + y) + z
  {
  }

  /** One step of the selection. */
  lemma OfKindCons(ms: seq<Message>, k: MessageKind)
    requires |ms| > 0
    ensures OfKind(ms, k) == (if ms[0].kind == k then [ms[0]] else []) + OfKind(ms[1..], k)
  {
  }

  predicate Classified(ms: seq<Message>) {
    forall i :: 0 <= i < |ms| ==> ms[i].kind != PlainMessage
  }

  /** Adding a sequence of messages one by one, stopping at the first refusal. */
  function AddMessages(r: CompilationResult, ms: seq<Message>): Result<CompilationResult>
    decreases |ms|
  {
    if |ms| == 0 then Success(r)
    else match AddMessage(r, ms[0])
      case Failure(e) => Failure(e)
      case Success(r') => AddMessages(r', ms[1..])
  }

  /** Routing keeps order: classified messages end up appended to the errors
      and to the warnings as the error-only and warning-only subsequences,
      nothing else changes. */
  lemma {:induction false} AddMessagesRoutes(r: CompilationResult, ms: seq<Message>)
    requires Classified(ms)
    ensures AddMessages(r, ms).Success?
    ensures AddMessages(r, ms).value
      == r.(errors := r.errors + OfKind(ms, ErrorMessage), warnings := r.warnings + OfKind(ms, WarningMessage))
    decreases |ms|
  {
    if |ms| > 0 {
      var m := ms[0];
      RouteOne(r, m);
      var r' := AddMessage(r, m).value;
      ClassifiedTail(ms);
      AddMessagesRoutes(r', ms[1..]);
      assert AddMessages(r, ms) == AddMessages(r', ms[1..]);
      assert ms == [m] + ms[1..];
      OfKindAppend([m], ms[1..], ErrorMessage);
      OfKindAppend([m], ms[1..], WarningMessage);
      RouteAppend(r, r', OfKind([m], ErrorMessage), OfKind([m], WarningMessage),
                  OfKind(ms[1..], ErrorMessage), OfKind(ms[1..], WarningMessage));
    }
  }

  /** A single classified message goes to the list of its kind. */
  lemma RouteOne(r: CompilationResult, m: Message)
    requires m.kind != PlainMessage
    ensures AddMessage(r, m).Success?
    ensures AddMessage(r, m).value
      == r.(errors := r.errors + OfKind([m], ErrorMessage), warnings := r.warnings + OfKind([m], WarningMessage))
  {
    OfKindCons([m], ErrorMessage);
    OfKindCons([m], WarningMessage);
    assert [m][1..] == [];
  }

  lemma ClassifiedTail(ms: seq<Message>)
    requires |ms| > 0 && Classified(ms)
    ensures Classified(ms[1..])
  {
    forall i | 0 <= i < |ms| - 1 ensures ms[1..][i].kind != PlainMessage {
      assert ms[1..][i] == ms[i + 1];
    }
  }

  /** Appending in two steps is appending the concatenation. */
  lemma RouteAppend(r: CompilationResult, r': CompilationResult,
                    e0: seq<Message>, w0: seq<Message>, es: seq<Message>, ws: seq<Message>)
    requires r' == r.(errors := r.errors + e0, warnings := r.warnings + w0)
    ensures r'.(errors := r'.errors + es, warnings := r'.warnings + ws)
         == r.(errors := r.errors + (e0 + es), warnings := r.warnings + (w0 + ws))
  {
    assert r.errors + e0 + es == r.errors + (e0 + es);
    assert r.warnings + w0 + ws == r.warnings + (w0 + ws);
  }

  /** One unclassified message anywhere makes the whole sequence refused. */
  lemma {:induction false} AddMessagesRefuses(r: CompilationResult, ms: seq<Message>)
    requires !Classified(ms)
    ensures AddMessages(r, ms).Failure?
    ensures AddMessages(r, ms).error.kind == InvalidArgument
    decreases |ms|
  {
    if ms[0].kind != PlainMessage {
      assert !Classified(ms[1..]) by {
        var i :| 0 <= i < |ms| && ms[i].kind == PlainMessage;
        assert ms[1..][i - 1] == ms[i];
      }
      AddMessagesRefuses(AddMessage(r, ms[0]).value, ms[1..]);
    }
  }
}
