/** The remote compiler backend (Classes/JsWatch/Compiler/GoogleClosureCompilerService.php):
    the options are sent as a form-encoded POST body, and the decoded JSON
    answer becomes a compilation result. The HTTP exchange and the JSON
    decoding are not modelled: `send` maps the body to what came back, and a
    `Response` is the already decoded value. */
module ClosureService {

  import opened Errors
  import opened Strings
  import opened CompilerOptions
  import opened FormEncoding
  import opened Messages
  import opened CompilationResults
  import opened Compilers

  const ServiceUrl: string := "http://closure-compiler.appspot.com/compile"

  /** One entry of `serverErrors`. */
  datatype ServerError = ServerError(code: int, error: string)

  /** One entry of `errors` or `warnings`: the text (field `error` resp.
      `warning`), line number, character offset and source line. */
  datatype Diagnostic = Diagnostic(text: string, lineno: int, charno: int, line: string)

  /** A diagnostics field: missing, present but not a list, or a list. */
  datatype DiagnosticField = Absent | NotAList | Listed(entries: seq<Diagnostic>)

  /** What `json_decode` gave: something other than an object, or an object
      with the fields the backend reads. */
  datatype Response =
    | NotAnObject
    | Object(serverErrors: Option<seq<ServerError>>, compiledCode: Option<string>,
             errors: DiagnosticField, warnings: DiagnosticField)

  /** What the HTTP request gave: a transport error text or a body. */
  datatype Transport = TransportError(message: string) | Delivered(response: Response)

  /** What `runCompiler` hands back: the result and what it wrote to the
      target file, if anything. */
  datatype ServiceRun = ServiceRun(result: CompilationResult, written: Option<string>)

  // ---------------------------------------------------------------------
  // The request

  const OutputInfo: seq<string> := ["compiled_code", "warnings", "errors"]

  /** The caller's options, then JSON output with code, warnings and errors,
      then the source text as `js_code`. */
  function ServiceOptions(options: Options, contents: string): (r: Options)
    requires DistinctKeys(options)
    ensures DistinctKeys(r)
  {
    var opts := Merge(options, [("output_format", Scalar("json")), ("output_info", ListValue(OutputInfo))]);
    Assign(opts, "js_code", Scalar(contents))
  }

  lemma FixedOptionsAreBytes(contents: string)
    requires IsByteString(contents)
    ensures ByteOptions([("output_format", Scalar("json")), ("output_info", ListValue(OutputInfo))])
    ensures ByteOption("js_code", Scalar(contents))
  {
    var o := [("output_format", Scalar("json")), ("output_info", ListValue(OutputInfo))];
    assert Values(o[1].1) == OutputInfo;
  }

  lemma ServiceOptionsAreBytes(options: Options, contents: string)
    requires DistinctKeys(options) && ByteOptions(options) && IsByteString(contents)
    ensures ByteOptions(ServiceOptions(options, contents))
  {
    var fixed := [("output_format", Scalar("json")), ("output_info", ListValue(OutputInfo))];
    FixedOptionsAreBytes(contents);
    MergeKeepsBytes(options, fixed);
    AssignKeepsBytes(Merge(options, fixed), "js_code", Scalar(contents));
  }

  /** The POST body. */
  function RequestBody(options: Options, contents: string): string
    requires DistinctKeys(options) && ByteOptions(options) && IsByteString(contents)
  {
    ServiceOptionsAreBytes(options, contents);
    FormBody(ServiceOptions(options, contents))
  }

  /** With the options `compileFile` supplies (none), the service receives
      exactly these fields, in this order, the source text intact. */
  lemma CompileFileBody(contents: string)
    requires IsByteString(contents)
    ensures ParseBody(RequestBody([], contents))
      == [("output_format", "json"), ("output_info", "compiled_code"), ("output_info", "warnings"),
          ("output_info", "errors"), ("js_code", contents)]
  {
    var o := ServiceOptions([], contents);
    CompileFileOptions(contents);
    ServiceOptionsAreBytes([], contents);
    FixedKeysPlain(o, contents);
    FormBodyRoundTrip(o);
    FixedPairs(o, contents);
  }

  lemma CompileFileOptions(contents: string)
    ensures ServiceOptions([], contents)
      == [("output_format", Scalar("json")), ("output_info", ListValue(OutputInfo)), ("js_code", Scalar(contents))]
  {
    var k0, k1 := "output_format", "output_info";
    assert |k0| == 13 && |k1| == 11 && |"js_code"| == 7;
    ThreeKeys(k0, Scalar("json"), k1, ListValue(OutputInfo), "js_code", Scalar(contents));
  }

  /** Two distinct entries merged into no options, then a third new key. */
  lemma ThreeKeys(k0: string, v0: OptionValue, k1: string, v1: OptionValue, k2: string, v2: OptionValue)
    requires k0 != k1 && k2 != k0 && k2 != k1
    ensures Assign(Merge([], [(k0, v0), (k1, v1)]), k2, v2) == [(k0, v0), (k1, v1), (k2, v2)]
  {
    var e := [(k0, v0), (k1, v1)];
    MergeIntoEmpty(e);
    AssignNew(e, k2, v2);
  }

  lemma FixedKeysPlain(o: Options, contents: string)
    requires o == [("output_format", Scalar("json")), ("output_info", ListValue(OutputInfo)), ("js_code", Scalar(contents))]
    ensures forall i :: 0 <= i < |o| ==> PlainKey(o[i].0)
  {
  }

  lemma FixedPairs(o: Options, contents: string)
    requires o == [("output_format", Scalar("json")), ("output_info", ListValue(OutputInfo)), ("js_code", Scalar(contents))]
    ensures Pairs(o) == [("output_format", "json"), ("output_info", "compiled_code"), ("output_info", "warnings"),
                         ("output_info", "errors"), ("js_code", contents)]
  {
    assert o[1..][1..] == o[2..] && o[2..][1..] == [];
    assert Pairs(o[2..]) == [("js_code", contents)];
    assert Pairs(o[1..]) == [("output_info", "compiled_code"), ("output_info", "warnings"), ("output_info", "errors")]
                            + [("js_code", contents)];
  }

  // ---------------------------------------------------------------------
  // The response

  /** PHP `empty()` on the compiled code: missing, `""` and `"0"` are empty. */
  predicate EmptyCode(code: Option<string>) {
    code.None? || PhpEmpty(code.value)
  }

  function Entries(f: DiagnosticField): seq<Diagnostic> {
    if f.Listed? then f.entries else []
  }

  /** `new Error(...)` / `new Warning(...)` from one entry. */
  function DiagnosticMessage(kind: MessageKind, d: Diagnostic): Message {
    NewMessage(kind, d.text, IntToString(d.lineno), d.charno, d.line)
  }

  /** The messages of a list of entries, in list order. */
  function DiagnosticMessages(kind: MessageKind, ds: seq<Diagnostic>): (ms: seq<Message>)
    ensures |ms| == |ds|
  {
    seq(|ds|, k requires 0 <= k < |ds| => DiagnosticMessage(kind, ds[k]))
  }

  /** The `addError` loop. */
  function AddErrors(r: CompilationResult, ds: seq<Diagnostic>): CompilationResult
    decreases |ds|
  {
    if |ds| == 0 then r else AddErrors(AddError(r, DiagnosticMessage(ErrorMessage, ds[0])), ds[1..])
  }

  /** The `addWarning` loop. */
  function AddWarnings(r: CompilationResult, ds: seq<Diagnostic>): CompilationResult
    decreases |ds|
  {
    if |ds| == 0 then r else AddWarnings(AddWarning(r, DiagnosticMessage(WarningMessage, ds[0])), ds[1..])
  }

  lemma MessagesCons(kind: MessageKind, ds: seq<Diagnostic>)
    requires |ds| > 0
    ensures DiagnosticMessages(kind, ds) == [DiagnosticMessage(kind, ds[0])] + DiagnosticMessages(kind, ds[1..])
  {
    var all, rest := DiagnosticMessages(kind, ds), DiagnosticMessages(kind, ds[1..]);
    var glued := [DiagnosticMessage(kind, ds[0])] + rest;
    assert |all| == |glued|;
    forall k | 0 <= k < |all|
      ensures all[k] == glued[k]
    {
      if k > 0 {
        assert glued[k] == rest[k - 1];
        assert ds[1..][k - 1] == ds[k];
      }
    }
  }

  /** The loop appends one error per entry, in order, and touches nothing else. */
  lemma {:induction false} AddErrorsAppends(r: CompilationResult, ds: seq<Diagnostic>)
    ensures AddErrors(r, ds) == r.(errors := r.errors + DiagnosticMessages(ErrorMessage, ds))
    decreases |ds|
  {
    if |ds| == 0 {
      assert r.errors + [] == r.errors;
    } else {
      var m := DiagnosticMessage(ErrorMessage, ds[0]);
      AddErrorsAppends(AddError(r, m), ds[1..]);
      MessagesCons(ErrorMessage, ds);
      ErrorsThenRest(r, m, DiagnosticMessages(ErrorMessage, ds[1..]));
    }
  }

  /** The loop appends one warning per entry, in order, and touches nothing else. */
  lemma {:induction false} AddWarningsAppends(r: CompilationResult, ds: seq<Diagnostic>)
    ensures AddWarnings(r, ds) == r.(warnings := r.warnings + DiagnosticMessages(WarningMessage, ds))
    decreases |ds|
  {
    if |ds| == 0 {
      assert r.warnings + [] == r.warnings;
    } else {
      var m := DiagnosticMessage(WarningMessage, ds[0]);
      AddWarningsAppends(AddWarning(r, m), ds[1..]);
      MessagesCons(WarningMessage, ds);
      WarningsThenRest(r, m, DiagnosticMessages(WarningMessage, ds[1..]));
    }
  }

  lemma ErrorsThenRest(r: CompilationResult, m: Message, rest: seq<Message>)
    requires m.kind == ErrorMessage
    ensures AddError(r, m).(errors := AddError(r, m).errors + rest) == r.(errors := r.errors + ([m] + rest))
  {
    assert r.errors + [m] + rest == r.errors + ([m] + rest);
  }

  lemma WarningsThenRest(r: CompilationResult, m: Message, rest: seq<Message>)
    requires m.kind == WarningMessage
    ensures AddWarning(r, m).(warnings := AddWarning(r, m).warnings + rest) == r.(warnings := r.warnings + ([m] + rest))
  {
    assert r.warnings + [m] + rest == r.warnings + ([m] + rest);
  }

  /** The first server error's code and text, as PHP prints them; an empty
      list prints as two empty strings. */
  function ServerSaid(errs: seq<ServerError>): string {
    if |errs| == 0 then ": " else IntToString(errs[0].code) + ": " + errs[0].error
  }

  const ServerErrorPrefix: string := "Error calling google closure compiler service. Server said: "

  /** `parseResponse`: a reported server error is fatal; otherwise the
      result is successful exactly when the compiled code is not empty, and
      errors and warnings come from list-valued fields in list order. */
  function ParseResponse(source: string, target: string, resp: Response): (r: Result<CompilationResult>)
    requires resp.Object?
    ensures r.Failure? <==> resp.serverErrors.Some?
    ensures r.Failure? ==>
      r.error == Exc(CommandExecution, ServerErrorPrefix + ServerSaid(resp.serverErrors.value), ServiceServerError)
    ensures r.Success? ==> r.value.source == source && r.value.target == Some(target)
    ensures r.Success? ==> (r.value.successful <==> !EmptyCode(resp.compiledCode))
    ensures r.Success? ==> r.value.compiledCode == if EmptyCode(resp.compiledCode) then None else resp.compiledCode
    ensures r.Success? ==> CodeIfSuccessful(r.value)
    ensures r.Success? ==> r.value.errors == DiagnosticMessages(ErrorMessage, Entries(resp.errors))
    ensures r.Success? ==> r.value.warnings == DiagnosticMessages(WarningMessage, Entries(resp.warnings))
  {
    if resp.serverErrors.Some? then
      Failure(Exc(CommandExecution, ServerErrorPrefix + ServerSaid(resp.serverErrors.value), ServiceServerError))
    else
      var base := NewResult(source, Some(target));
      var base := if !EmptyCode(resp.compiledCode) then SetCompiledCode(SetSuccessful(base, true), resp.compiledCode.value) else base;
      var withErrors := AddErrors(base, Entries(resp.errors));
      AddErrorsAppends(base, Entries(resp.errors));
      AddWarningsAppends(withErrors, Entries(resp.warnings));
      Success(AddWarnings(withErrors, Entries(resp.warnings)))
  }

  /** Each reported entry becomes one message of the right kind with the
      entry's text, decimal line number, offset and source line. */
  lemma DiagnosticsCarried(source: string, target: string, resp: Response, k: nat)
    requires resp.Object? && resp.serverErrors.None?
    ensures var r := ParseResponse(source, target, resp).value;
      && (k < |Entries(resp.errors)| ==>
            var d := Entries(resp.errors)[k];
            r.errors[k].kind == ErrorMessage && r.errors[k].message == d.text
            && r.errors[k].lineNumber == IntToString(d.lineno) && r.errors[k].characterNumber == d.charno
            && r.errors[k].line == d.line)
      && (k < |Entries(resp.warnings)| ==>
            var d := Entries(resp.warnings)[k];
            r.warnings[k].kind == WarningMessage && r.warnings[k].message == d.text
            && r.warnings[k].lineNumber == IntToString(d.lineno) && r.warnings[k].characterNumber == d.charno
            && r.warnings[k].line == d.line)
  {
  }

  // ---------------------------------------------------------------------
  // The whole run

  const TransportFailurePrefix: string := "Sending request to google closure compiler service failed: "
  const DecodeFailureMessage: string := "Decoding the compiler result failed"

  /** `runCompiler`: send the body, refuse transport errors and answers
      that are not objects, parse, and write the compiled code to the target
      exactly when the result is successful. */
  function RunCompiler(req: RunRequest, contents: string, send: string -> Transport): (r: Result<ServiceRun>)
    requires DistinctKeys(req.options) && ByteOptions(req.options) && IsByteString(contents)
    ensures var t := send(RequestBody(req.options, contents));
      && (t.TransportError? ==>
            r == Failure(Exc(CommandExecution, TransportFailurePrefix + t.message, ServiceTransportFailed)))
      && (t.Delivered? && t.response.NotAnObject? ==>
            r == Failure(Exc(CommandExecution, DecodeFailureMessage, ServiceDecodeFailed)))
      && (t.Delivered? && t.response.Object? ==>
            (r.Success? <==> t.response.serverErrors.None?))
    ensures r.Success? ==> r.value.result.source == req.source && r.value.result.target == Some(req.target)
    ensures r.Success? ==> (r.value.written.Some? <==> r.value.result.successful)
    ensures r.Success? && r.value.written.Some? ==>
      r.value.written == r.value.result.compiledCode && r.value.written.value !in {"", "0"}
  {
    match send(RequestBody(req.options, contents))
    case TransportError(e) => Failure(Exc(CommandExecution, TransportFailurePrefix + e, ServiceTransportFailed))
    case Delivered(resp) =>
      if resp.NotAnObject? then Failure(Exc(CommandExecution, DecodeFailureMessage, ServiceDecodeFailed))
      else
        match ParseResponse(req.source, req.target, resp)
        case Failure(e) => Failure(e)
        case Success(result) => Success(ServiceRun(result, if result.successful then result.compiledCode else None))
  }

  /** `compileFile` with this backend: the source check, then the run. */
  function CompileFile(source: string, sourceIsFile: bool, targetName: Option<string>, contents: string,
                       send: string -> Transport): (r: Result<ServiceRun>)
    requires IsByteString(contents)
    ensures !sourceIsFile ==> r.Failure? && r.error.kind == InvalidPath && r.error.code == SourceNotAFile
    ensures r.Success? ==> r.value.result.source == source
    ensures r.Success? ==>
      r.value.result.target == Some(if targetName.None? then GetTargetFileName(source) else targetName.value)
    ensures r.Success? ==> (r.value.written.Some? <==> r.value.result.successful)
  {
    match CompileRequest(source, sourceIsFile, targetName)
    case Failure(e) => Failure(e)
    case Success(req) => RunCompiler(req, contents, send)
  }
}
