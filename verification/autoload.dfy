/** The class autoloader (Classes/JsWatch/Bootstrap.php): a class name is
    mapped to a file path in the PSR-0 style, and the class is loaded when
    that file exists. The directory of the bootstrap file and the existence
    of files are inputs. */
module Autoload {

  import opened Errors
  import opened Strings

  /** `ltrim($className, '\\')`. */
  function TrimBackslashes(s: string): (r: string)
    ensures |r| <= |s| && r == s[|s| - |r|..]
    ensures forall i :: 0 <= i < |s| - |r| ==> s[i] == '\\'
    ensures r == [] || r[0] != '\\'
  {
    if |s| > 0 && s[0] == '\\' then TrimBackslashes(s[1..]) else s
  }

  /** The path below the root for a trimmed class name: the namespace before
      the last `\` becomes directories, and `_` in the class's own name
      becomes a directory separator too. A `\` at position 0 would count as
      "no namespace", since PHP reads position 0 as false; after trimming
      there is none. */
  function RelativePath(name: string): string {
    match LastIndexOf(name, '\\')
    case Some(i) =>
      if i > 0 then ReplaceChar(name[..i], '\\', '/') + "/" + ReplaceChar(name[i + 1..], '_', '/')
      else ReplaceChar(name, '_', '/')
    case None => ReplaceChar(name, '_', '/')
  }

  /** The file `autoLoad` looks for, below `dir/../`. */
  function ClassFile(dir: string, className: string): string {
    dir + "/../" + RelativePath(TrimBackslashes(className)) + ".php"
  }

  /** Every class file lies below `dir/../` and ends in `.php`. */
  lemma ClassFileShape(dir: string, className: string)
    ensures var f := ClassFile(dir, className);
      |f| >= |dir| + 8 && f[..|dir| + 4] == dir + "/../" && EndsWith(f, ".php")
  {
    var f := ClassFile(dir, className);
    assert f[..|dir| + 4] == dir + "/../";
  }

  /** `autoLoad`: true exactly when the computed file exists; then it is required. */
  function AutoLoad(dir: string, className: string, fileExists: string -> bool): (loaded: bool)
    ensures loaded <==> fileExists(ClassFile(dir, className))
  {
    fileExists(ClassFile(dir, className))
  }

  /** Leading backslashes make no difference. */
  lemma LeadingBackslashIgnored(dir: string, className: string)
    ensures ClassFile(dir, "\\" + className) == ClassFile(dir, className)
  {
    assert ("\\" + className)[1..] == className;
  }

  /** The file is the root, the relative path of the trimmed name, and `.php`. */
  lemma ClassFileParts(dir: string, className: string)
    ensures ClassFile(dir, className) == dir + "/../" + RelativePath(TrimBackslashes(className)) + ".php"
  {
  }

  lemma NothingToTrim(n: string)
    requires n == [] || n[0] != '\\'
    ensures TrimBackslashes(n) == n
  {
  }

  /** A namespaced name: the namespace with `\` turned into `/`, then the
      class's own name with `_` turned into `/`. */
  lemma NamespacedPath(ns: string, cls: string)
    requires |ns| > 0 && '\\' !in cls
    ensures RelativePath(ns + "\\" + cls) == ReplaceChar(ns, '\\', '/') + "/" + ReplaceChar(cls, '_', '/')
  {
    var n := ns + "\\" + cls;
    LastSeparator(ns, cls);
    assert n[..|ns|] == ns && n[|ns| + 1..] == cls;
  }

  lemma LastSeparator(ns: string, cls: string)
    requires '\\' !in cls
    ensures LastIndexOf(ns + "\\" + cls, '\\') == Some(|ns|)
  {
    var n := ns + "\\" + cls;
    assert n[|ns|] == '\\' && n[|ns| + 1..] == cls;
  }

  lemma ReplaceAppend(a: string, b: string, from: char, to: char)
    ensures ReplaceChar(a + b, from, to) == ReplaceChar(a, from, to) + ReplaceChar(b, from, to)
  {
  }

  lemma ReplaceAbsent(a: string, from: char, to: char)
    requires from !in a
    ensures ReplaceChar(a, from, to) == a
  {
  }

  /** `a\b` as a namespace becomes `a/b`. */
  lemma NamespaceDirectories(a: string, b: string)
    requires '\\' !in a && '\\' !in b
    ensures ReplaceChar(a + "\\" + b, '\\', '/') == a + "/" + b
  {
    ReplaceAppend(a + "\\", b, '\\', '/');
    ReplaceAppend(a, "\\", '\\', '/');
    ReplaceAbsent(a, '\\', '/');
    ReplaceAbsent(b, '\\', '/');
  }

  /** A one-level namespace: its underscores are kept, the class's own name
      has none here. */
  lemma NamespaceKept(dir: string, ns: string, cls: string)
    requires |ns| > 0 && ns[0] != '\\' && '\\' !in ns
    requires '\\' !in cls && '_' !in cls
    ensures ClassFile(dir, ns + "\\" + cls) == dir + "/../" + (ns + "/" + cls) + ".php"
  {
    NothingToTrim(ns + "\\" + cls);
    NamespaceKeptPath(ns, cls);
  }

  lemma NamespaceKeptPath(ns: string, cls: string)
    requires |ns| > 0 && '\\' !in ns
    requires '\\' !in cls && '_' !in cls
    ensures RelativePath(ns + "\\" + cls) == ns + "/" + cls
  {
    NamespacedPath(ns, cls);
    ReplaceAbsent(ns, '\\', '/');
    ReplaceAbsent(cls, '_', '/');
  }

  /** A two-level namespace becomes two directories. */
  lemma NestedClassFile(dir: string, a: string, b: string, cls: string)
    requires |a| > 0 && a[0] != '\\' && '\\' !in a && '\\' !in b
    requires '\\' !in cls && '_' !in cls
    ensures ClassFile(dir, a + "\\" + b + "\\" + cls) == dir + "/../" + (a + "/" + b + "/" + cls) + ".php"
  {
    NothingToTrim(a + "\\" + b + "\\" + cls);
    NestedPath(a, b, cls);
  }

  lemma NestedPath(a: string, b: string, cls: string)
    requires |a| > 0 && '\\' !in a && '\\' !in b
    requires '\\' !in cls && '_' !in cls
    ensures RelativePath(a + "\\" + b + "\\" + cls) == a + "/" + b + "/" + cls
  {
    NamespacedPath(a + "\\" + b, cls);
    NamespaceDirectories(a, b);
    ReplaceAbsent(cls, '_', '/');
  }

  /** An underscore in the class's own name leads to the same file as a
      namespace separator in its place: `A\B_C` and `A\B\C` collide. */
  lemma UnderscoreCollision(dir: string, a: string, b: string, c: string)
    requires |a| > 0 && a[0] != '\\' && '\\' !in a
    requires '\\' !in b && '_' !in b && '\\' !in c && '_' !in c
    ensures ClassFile(dir, a + "\\" + b + "_" + c) == ClassFile(dir, a + "\\" + b + "\\" + c)
  {
    var n := a + "\\" + (b + "_" + c);
    var m := a + "\\" + b + "\\" + c;
    assert n == a + "\\" + b + "_" + c;
    NothingToTrim(n);
    NothingToTrim(m);
    UnderscorePath(a, b, c);
    NestedPath(a, b, c);
    SameRelativePath(dir, n, m);
  }

  lemma SameRelativePath(dir: string, n: string, m: string)
    requires TrimBackslashes(n) == n && TrimBackslashes(m) == m
    requires RelativePath(n) == RelativePath(m)
    ensures ClassFile(dir, n) == ClassFile(dir, m)
  {
    ClassFileParts(dir, n);
    ClassFileParts(dir, m);
  }

  lemma UnderscorePath(a: string, b: string, c: string)
    requires |a| > 0 && '\\' !in a
    requires '\\' !in b && '_' !in b && '\\' !in c && '_' !in c
    ensures RelativePath(a + "\\" + (b + "_" + c)) == a + "/" + b + "/" + c
  {
    NamespacedPath(a, b + "_" + c);
    ReplaceAbsent(a, '\\', '/');
    ReplaceAppend(b + "_", c, '_', '/');
    ReplaceAppend(b, "_", '_', '/');
    ReplaceAbsent(b, '_', '/');
    ReplaceAbsent(c, '_', '/');
  }

  /** Names without `_` or `/` that do not start with `\` are recovered from
      their path by turning separators back into backslashes. */
  lemma RelativePathRoundTrip(name: string)
    requires '_' !in name && '/' !in name && (name == [] || name[0] != '\\')
    ensures ReplaceChar(RelativePath(name), '/', '\\') == name
  {
    match LastIndexOf(name, '\\')
    case None =>
      ReplaceAbsent(name, '_', '/');
      ReplaceAbsent(name, '/', '\\');
    case Some(i) =>
      var ns := name[..i];
      var cls := name[i + 1..];
      assert name == ns + "\\" + cls;
      assert i > 0;
      NamespacedPath(ns, cls);
      NamespacedRoundTrip(ns, cls);
  }

  lemma NamespacedRoundTrip(ns: string, cls: string)
    requires '/' !in ns && '\\' !in cls && '_' !in cls && '/' !in cls
    ensures ReplaceChar(ReplaceChar(ns, '\\', '/') + "/" + ReplaceChar(cls, '_', '/'), '/', '\\') == ns + "\\" + cls
  {
    ReplaceAbsent(cls, '_', '/');
    ReplaceAppend(ReplaceChar(ns, '\\', '/') + "/", cls, '/', '\\');
    ReplaceAppend(ReplaceChar(ns, '\\', '/'), "/", '/', '\\');
    ReplaceBack(ns);
    ReplaceAbsent(cls, '/', '\\');
  }

  /** Turning `\` into `/` and back is the identity on a text without `/`. */
  lemma ReplaceBack(x: string)
    requires '/' !in x
    ensures ReplaceChar(ReplaceChar(x, '\\', '/'), '/', '\\') == x
  {
  }

  /** Hence two such names never share a relative path, and so never share
      a file below the same root. */
  lemma RelativePathInjective(a: string, b: string)
    requires '_' !in a && '/' !in a && (a == [] || a[0] != '\\')
    requires '_' !in b && '/' !in b && (b == [] || b[0] != '\\')
    requires RelativePath(a) == RelativePath(b)
    ensures a == b
  {
    RelativePathRoundTrip(a);
    RelativePathRoundTrip(b);
  }
}
