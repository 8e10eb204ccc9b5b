/** The part every compiler backend shares (Classes/JsWatch/Compiler/AbstractCompiler.php):
    the default target name, the guard on the source file, and the request
    handed to the backend's own `runCompiler`. */
module Compilers {

  import opened Errors
  import opened Strings
  import opened CompilerOptions

  /** The two backends, in the order the factory tries them. */
  datatype Backend = ClosureApplication | ClosureService

  /** `SplFileInfo::getPath`: everything before the last `/`, or nothing. */
  function DirName(p: string): (d: string)
    ensures d <= p
    ensures '/' !in p ==> d == ""
  {
    match LastIndexOf(p, '/')
    case None => ""
    case Some(i) => p[..i]
  }

  /** The file name: everything after the last `/`. */
  function BaseName(p: string): (b: string)
    ensures EndsWith(p, b) && '/' !in b
  {
    match LastIndexOf(p, '/')
    case None => p
    case Some(i) => p[i + 1..]
  }

  /** `getBasename(suffix)`: the suffix is removed only when the file name
      ends with it and is longer than it. */
  function BaseNameWithout(p: string, suffix: string): string {
    var b := BaseName(p);
    if |suffix| < |b| && EndsWith(b, suffix) then b[..|b| - |suffix|] else b
  }

  /** `getTargetFileName`: directory, `/`, file name without a trailing
      `.js`, then `.min.js`. */
  function GetTargetFileName(source: string): (t: string)
    ensures EndsWith(t, ".min.js")
  {
    DirName(source) + "/" + BaseNameWithout(source, ".js") + ".min.js"
  }

  /** For a path with a directory part (every such path is a directory, `/`
      and a file name without `/`) whose file name ends in `.js` and is
      longer than `.js`, the target is the path with `.js` replaced by
      `.min.js`. */
  lemma TargetReplacesSuffix(dir: string, name: string)
    requires '/' !in name && EndsWith(name, ".js") && |name| > 3
    ensures GetTargetFileName(dir + "/" + name) == dir + "/" + name[..|name| - 3] + ".min.js"
  {
    var p := dir + "/" + name;
    assert p[|dir|] == '/' && p[|dir| + 1..] == name;
    assert LastIndexOf(p, '/') == Some(|dir|);
    assert p[..|dir|] == dir;
  }

  /** Different `.js` sources with a directory part get different targets. */
  lemma TargetInjective(dir: string, name: string, dir': string, name': string)
    requires '/' !in name && EndsWith(name, ".js") && |name| > 3
    requires '/' !in name' && EndsWith(name', ".js") && |name'| > 3
    requires GetTargetFileName(dir + "/" + name) == GetTargetFileName(dir' + "/" + name')
    ensures dir + "/" + name == dir' + "/" + name'
  {
    TargetReplacesSuffix(dir, name);
    TargetReplacesSuffix(dir', name');
    var a, b := dir + "/" + name[..|name| - 3], dir' + "/" + name'[..|name'| - 3];
    SameSuffixSamePrefix(a, b, ".min.js");
    RestoreSuffix(dir, name);
    RestoreSuffix(dir', name');
  }

  lemma RestoreSuffix(dir: string, name: string)
    requires EndsWith(name, ".js")
    ensures dir + "/" + name[..|name| - 3] + ".js" == dir + "/" + name
  {
    assert name == name[..|name| - 3] + ".js";
  }

  lemma SameSuffixSamePrefix(a: string, b: string, t: string)
    requires a + t == b + t
    ensures a == b
  {
    assert |a| == |b|;
    assert a == (a + t)[..|a|];
    assert b == (b + t)[..|b|];
  }

  /** A file name that does not end in `.js` keeps its whole name and gets
      `.min.js` appended. */
  lemma TargetAppendsSuffix(dir: string, name: string)
    requires '/' !in name && !EndsWith(name, ".js")
    ensures GetTargetFileName(dir + "/" + name) == dir + "/" + name + ".min.js"
  {
    var p := dir + "/" + name;
    assert p[|dir|] == '/' && p[|dir| + 1..] == name;
    assert LastIndexOf(p, '/') == Some(|dir|);
    assert p[..|dir|] == dir;
  }

  /** The suffix test is case-sensitive: `x.JS` is not recognised as `.js`. */
  lemma TargetUpperCaseKept(dir: string, name: string)
    requires '/' !in name && EndsWith(name, ".JS")
    ensures GetTargetFileName(dir + "/" + name) == dir + "/" + name + ".min.js"
  {
    assert name[|name| - 2] == 'J';
    TargetAppendsSuffix(dir, name);
  }

  /** A file name that is just `.js` is not shortened: it becomes `.js.min.js`. */
  lemma TargetBareSuffixKept(dir: string, name: string)
    requires name == ".js"
    ensures GetTargetFileName(dir + "/" + name) == dir + "/" + name + ".min.js"
  {
    var p := dir + "/" + name;
    assert p[|dir|] == '/' && p[|dir| + 1..] == name;
    assert LastIndexOf(p, '/') == Some(|dir|);
    assert p[..|dir|] == dir;
  }

  /** Why `TargetInjective` asks for names longer than `.js`: the file `.js`
      keeps its name, so it shares its target with `.js.js`. */
  lemma TargetCollision(dir: string, name: string)
    requires name == ".js"
    ensures dir + "/" + name != dir + "/" + name + name
    ensures GetTargetFileName(dir + "/" + name) == GetTargetFileName(dir + "/" + name + name)
  {
    var twice := name + name;
    assert EndsWith(twice, ".js") && twice[..|twice| - 3] == name;
    assert '/' !in twice;
    calc {
      GetTargetFileName(dir + "/" + name + name);
      { assert dir + "/" + name + name == dir + "/" + twice; }
      GetTargetFileName(dir + "/" + twice);
      { TargetReplacesSuffix(dir, twice); }
      dir + "/" + name + ".min.js";
      { TargetBareSuffixKept(dir, name); }
      GetTargetFileName(dir + "/" + name);
    }
    assert |dir + "/" + name| < |dir + "/" + name + name|;
  }

  /** Without a directory part the directory is empty and the target lands
      in `/`. */
  lemma TargetWithoutDirectory(name: string)
    requires '/' !in name && EndsWith(name, ".js") && |name| > 3
    ensures GetTargetFileName(name) == "/" + name[..|name| - 3] + ".min.js"
  {
    assert BaseName(name) == name;
  }

  /** What `compileFile` hands to the backend's `runCompiler`. */
  datatype RunRequest = RunRequest(source: string, target: string, options: Options)

  /** `getCompilerOptions`: no options of its own. */
  function GetCompilerOptions(source: string, target: string): (o: Options)
    ensures |o| == 0
  {
    []
  }

  /** `compileFile` up to the backend call: a source that is not a regular
      file is refused before anything runs; the target is the explicit name
      when one is given, the default name otherwise. */
  function CompileRequest(source: string, sourceIsFile: bool, targetName: Option<string>): (r: Result<RunRequest>)
    ensures r.Failure? <==> !sourceIsFile
    ensures r.Failure? ==> r.error.kind == InvalidPath && r.error.code == SourceNotAFile
    ensures r.Success? ==> r.value.source == source && r.value.options == []
    ensures r.Success? && targetName.None? ==> r.value.target == GetTargetFileName(source)
    ensures r.Success? && targetName.Some? ==> r.value.target == targetName.value
  {
    if !sourceIsFile then
      Failure(Exc(InvalidPath, "The given file \"" + source + "\" does not exist or isn't a file.", SourceNotAFile))
    else
      var target := if targetName.None? then GetTargetFileName(source) else targetName.value;
      Success(RunRequest(source, target, GetCompilerOptions(source, target)))
  }
}
