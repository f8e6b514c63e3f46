/**
 * `SourceScanner` of main.py: where the text of a class comes from.
 *
 * A class is first looked up as a `.java` file in the project's modules, in the
 * order the modules were discovered; the first module that holds the file wins,
 * and its text is reduced to a skeleton (unless the path names the one class whose
 * text is kept whole). Otherwise, for classes of the target packages only, every
 * archive the dependency report names is checked for the `.class` entry, and the
 * first check that finishes with a decompiled text wins.
 *
 * The file system, the parser, the build tool and the decompiler are not modelled;
 * they are the fields of an `Environment`.
 */
module Scanner {
  import opened Wrappers
  import opened PyText
  import opened JavaAst
  import opened Sanitizer
  import opened Dependencies

  /** The package prefixes whose classes are searched for in the dependencies. */
  const TargetPackages: seq<string> := ["com.aidc", "com.alibaba", "com.alibaba.fastjson"]

  /** A path containing this name is read whole instead of being reduced to a skeleton. */
  const KeptWhole: string := "CapacityAlgorithmInvokeProcessor"

  /** Where a class text was found. */
  datatype Origin = Project | Decompiled

  /** The record `find_source` returns: kind, text and the path it came from. */
  datatype ClassSource = ClassSource(origin: Origin, content: string, path: string)

  /** The exceptions that escape `find_source`. */
  datatype Failure =
    | SyntaxFailure(error: SanitizeError)   // the project file does not parse
    | ReportFailure(stderr: string)         // the dependency report exited non-zero

  /** Everything outside the program that the scanner consults. */
  datatype Environment = Environment(
    modules: seq<string>,                            // the modules' source roots, in discovery order
    files: map<string, string>,                      // the readable files and their text
    parse: string -> ParseOutcome,                   // the Java parser
    report: Result<string, string>,                  // the report's standard output, or its error output
    archives: map<string, set<string>>,              // each archive on disk and its entry names
    decompile: (string, string) -> Option<string>,   // the decompiler's output for an entry of an archive
    completion: set<Coordinate> -> seq<Coordinate>)  // the order in which the archive checks finish

  /** Every archive check finishes: the completion order lists exactly the
      dependencies that were submitted. */
  ghost predicate CompletesAll(env: Environment)
  {
    forall deps: set<Coordinate>, c :: c in env.completion(deps) <==> c in deps
  }

  // ---------------------------------------------------------------------------
  // Names and paths
  // ---------------------------------------------------------------------------

  /** `class_fqn.startswith(TARGET_PACKAGES)`: the name starts with one of the prefixes. */
  predicate IsTargetPackage(fqn: string)
  {
    exists i :: 0 <= i < |TargetPackages| && StartsWith(fqn, TargetPackages[i])
  }

  /** A name starting with `com.alibaba.fastjson` already starts with `com.alibaba`,
      so the third prefix never decides anything. */
  lemma TargetPackageTwoPrefixes(fqn: string)
    ensures IsTargetPackage(fqn) <==> StartsWith(fqn, "com.aidc") || StartsWith(fqn, "com.alibaba")
  {
    if StartsWith(fqn, TargetPackages[2]) {
      assert fqn[..11] == fqn[..20][..11];
    }
    if StartsWith(fqn, "com.aidc") {
      assert StartsWith(fqn, TargetPackages[0]);
    }
    if StartsWith(fqn, "com.alibaba") {
      assert StartsWith(fqn, TargetPackages[1]);
    }
  }

  /** The prefixes are compared as text, not as packages: a sibling package whose name
      merely begins with `alibaba` counts as a target. */
  lemma PrefixIgnoresPackageBoundary()
    ensures IsTargetPackage("com.alibabacloud.Client")
  {
    assert "com.alibabacloud.Client"[..11] == "com.alibaba";
    assert StartsWith("com.alibabacloud.Client", TargetPackages[1]);
  }

  /** The file of a class below a source root: dots become directories. */
  function JavaPath(fqn: string): string
  {
    Replace(fqn, ".", "/") + ".java"
  }

  /** The entry of a class inside an archive. */
  function ClassFile(fqn: string): string
  {
    Replace(fqn, ".", "/") + ".class"
  }

  /** A class name without `/` is recovered from its file path. */
  lemma JavaPathRoundTrip(fqn: string)
    requires '/' !in fqn
    ensures EndsWith(JavaPath(fqn), ".java")
    ensures Replace(JavaPath(fqn)[..|JavaPath(fqn)| - 5], "/", ".") == fqn
  {
    var dir := Replace(fqn, ".", "/");
    assert JavaPath(fqn)[..|JavaPath(fqn)| - 5] == dir;
    assert JavaPath(fqn)[|JavaPath(fqn)| - 5..] == ".java";
    ReplaceCharRoundTrip(fqn, '.', '/');
  }

  /** A class name without `/` is recovered from its archive entry. */
  lemma ClassFileRoundTrip(fqn: string)
    requires '/' !in fqn
    ensures EndsWith(ClassFile(fqn), ".class")
    ensures Replace(ClassFile(fqn)[..|ClassFile(fqn)| - 6], "/", ".") == fqn
  {
    var dir := Replace(fqn, ".", "/");
    assert ClassFile(fqn)[..|ClassFile(fqn)| - 6] == dir;
    assert ClassFile(fqn)[|ClassFile(fqn)| - 6..] == ".class";
    ReplaceCharRoundTrip(fqn, '.', '/');
  }

  /** For an ordinary class name the file is looked for below the module's root. */
  lemma ModuleFileBelowRoot(root: string, fqn: string)
    requires root != [] && root[|root| - 1] != '/'
    requires fqn != [] && fqn[0] != '.' && fqn[0] != '/'
    ensures PathJoin(root, JavaPath(fqn)) == root + "/" + JavaPath(fqn)
  {
    ReplaceCharPointwise(fqn, '.', '/');
    assert JavaPath(fqn)[0] == Replace(fqn, ".", "/")[0];
  }

  /** A class name that starts with a dot turns into an absolute path, which replaces
      the module's root altogether. */
  lemma LeadingDotLeavesModules(root: string, rest: string)
    ensures PathJoin(root, JavaPath("." + rest)) == JavaPath("." + rest)
  {
    ReplaceCharPointwise("." + rest, '.', '/');
    assert JavaPath("." + rest)[0] == Replace("." + rest, ".", "/")[0];
  }

  // ---------------------------------------------------------------------------
  // The project's modules
  // ---------------------------------------------------------------------------

  /** The index of the first module below whose root the file exists. */
  function FirstModuleHit(modules: seq<string>, files: map<string, string>, javaPath: string): (r: Option<nat>)
    ensures r.Some? ==> r.value < |modules| && PathJoin(modules[r.value], javaPath) in files
  {
    if modules == [] then None
    else if PathJoin(modules[0], javaPath) in files then Some(0)
    else match FirstModuleHit(modules[1..], files, javaPath)
      case None => None
      case Some(i) => Some(i + 1)
  }

  /** The lookup finds the earliest module holding the file, and misses only when no
      module holds it. */
  lemma {:induction false} FirstModuleHitIsFirst(modules: seq<string>, files: map<string, string>, javaPath: string)
    ensures FirstModuleHit(modules, files, javaPath).None? <==>
      forall i :: 0 <= i < |modules| ==> PathJoin(modules[i], javaPath) !in files
    ensures FirstModuleHit(modules, files, javaPath).Some? ==>
      forall i :: 0 <= i < FirstModuleHit(modules, files, javaPath).value ==> PathJoin(modules[i], javaPath) !in files
  {
    if modules != [] && PathJoin(modules[0], javaPath) !in files {
      var rest := modules[1..];
      FirstModuleHitIsFirst(rest, files, javaPath);
      forall i | 1 <= i < |modules|
        ensures modules[i] == rest[i - 1]
      {
      }
    }
  }

  // ---------------------------------------------------------------------------
  // The dependencies' archives
  // ---------------------------------------------------------------------------

  /** `check_jar`: the decompiled text of the entry, when the archive exists, holds the
      entry and the decompiler succeeds. */
  function CheckJar(env: Environment, jarPath: string, classFile: string): (r: Option<ClassSource>)
    ensures r.Some? <==> jarPath in env.archives && classFile in env.archives[jarPath]
                         && env.decompile(jarPath, classFile).Some?
    ensures r.Some? ==> r.value == ClassSource(Decompiled, env.decompile(jarPath, classFile).value, jarPath)
  {
    if jarPath !in env.archives then None
    else if classFile !in env.archives[jarPath] then None
    else match env.decompile(jarPath, classFile)
      case None => None
      case Some(out) => Some(ClassSource(Decompiled, out, jarPath))
  }

  /** The archive checks in the order they finish: the first that finds the class wins. */
  function FirstFinished(env: Environment, finished: seq<Coordinate>, classFile: string): (r: Option<ClassSource>)
    ensures r.Some? ==> r.value.origin == Decompiled
  {
    if finished == [] then None
    else match CheckJar(env, BuildJarPath(finished[0]), classFile)
      case Some(src) => Some(src)
      case None => FirstFinished(env, finished[1..], classFile)
  }

  /** Whatever order the checks finish in, the search fails only when no archive yields
      the class, and what it returns is what some archive yields. */
  lemma {:induction false} FirstFinishedFindsAny(env: Environment, finished: seq<Coordinate>, classFile: string)
    ensures FirstFinished(env, finished, classFile).None? <==>
      forall c :: c in finished ==> CheckJar(env, BuildJarPath(c), classFile).None?
    ensures FirstFinished(env, finished, classFile).Some? ==>
      exists c :: c in finished && CheckJar(env, BuildJarPath(c), classFile) == FirstFinished(env, finished, classFile)
  {
    if finished != [] && CheckJar(env, BuildJarPath(finished[0]), classFile).None? {
      var rest := finished[1..];
      FirstFinishedFindsAny(env, rest, classFile);
      assert forall c :: c in finished <==> c == finished[0] || c in rest;
    }
  }

  /** `find_in_dependencies`: nothing for classes outside the target packages; the
      report's failure as an exception; otherwise the search of the named archives. */
  function FindInDependencies(env: Environment, fqn: string): (r: Result<Option<ClassSource>, Failure>)
    ensures !IsTargetPackage(fqn) ==> r == Ok(None)
    ensures IsTargetPackage(fqn) && env.report.Err? ==> r == Err(ReportFailure(env.report.error))
    ensures r.Ok? && r.value.Some? ==> r.value.value.origin == Decompiled
  {
    if !IsTargetPackage(fqn) then Ok(None)
    else match env.report
      case Err(stderr) => Err(ReportFailure(stderr))
      case Ok(stdout) =>
        var finished := env.completion(DependencySet(stdout));
        Ok(FirstFinished(env, finished, ClassFile(fqn)))
  }

  /** For a target class and a successful report, the archive search fails exactly
      when no archive of a named dependency yields the class, and otherwise returns
      what one of them yields, whatever the completion order. */
  lemma DependencySearchFindsAny(env: Environment, fqn: string)
    requires CompletesAll(env) && IsTargetPackage(fqn) && env.report.Ok?
    ensures FindInDependencies(env, fqn).Ok?
    ensures FindInDependencies(env, fqn).value.None? <==>
      forall c :: c in DependencySet(env.report.value) ==> CheckJar(env, BuildJarPath(c), ClassFile(fqn)).None?
    ensures FindInDependencies(env, fqn).value.Some? ==>
      exists c :: c in DependencySet(env.report.value)
               && CheckJar(env, BuildJarPath(c), ClassFile(fqn)) == FindInDependencies(env, fqn).value
  {
    var deps := DependencySet(env.report.value);
    var finished := env.completion(deps);
    FirstFinishedFindsAny(env, finished, ClassFile(fqn));
    assert forall c :: c in finished <==> c in deps;
  }

  // ---------------------------------------------------------------------------
  // find_source
  // ---------------------------------------------------------------------------

  /** The record for a project file: the text itself when the path names the class
      kept whole, the skeleton otherwise. */
  function ProjectSource(env: Environment, full: string): (r: Result<Option<ClassSource>, Failure>)
    requires full in env.files
    ensures r.Ok? ==> r.value.Some? && r.value.value.origin == Project && r.value.value.path == full
    ensures Contains(full, KeptWhole) ==> r == Ok(Some(ClassSource(Project, env.files[full], full)))
    ensures !Contains(full, KeptWhole) ==>
      (r.Err? <==> env.parse(env.files[full]).SyntaxError?)
    ensures !Contains(full, KeptWhole) && r.Ok? ==>
      r.value.value.content == SanitizeUnit(env.parse(env.files[full]).unit)
    ensures r.Err? ==>
      r.error == SyntaxFailure(JavaSyntaxError(env.parse(env.files[full]).at, env.parse(env.files[full]).message))
  {
    var text := env.files[full];
    if Contains(full, KeptWhole) then Ok(Some(ClassSource(Project, text, full)))
    else match Sanitize(env.parse(text))
      case Err(e) => Err(SyntaxFailure(e))
      case Ok(skeleton) => Ok(Some(ClassSource(Project, skeleton, full)))
  }

  /** `find_source`: the first module holding the class's file, else the dependencies. */
  function FindSource(env: Environment, fqn: string): (r: Result<Option<ClassSource>, Failure>)
  {
    match FirstModuleHit(env.modules, env.files, JavaPath(fqn))
    case Some(i) => ProjectSource(env, PathJoin(env.modules[i], JavaPath(fqn)))
    case None => FindInDependencies(env, fqn)
  }

  /** A class whose file some module holds is never searched for in the archives: it
      comes from the earliest such module. */
  lemma ProjectFileWins(env: Environment, fqn: string, k: nat)
    requires k < |env.modules| && PathJoin(env.modules[k], JavaPath(fqn)) in env.files
    ensures exists i :: (0 <= i <= k && PathJoin(env.modules[i], JavaPath(fqn)) in env.files &&
                         FindSource(env, fqn) == ProjectSource(env, PathJoin(env.modules[i], JavaPath(fqn))))
    ensures FindSource(env, fqn).Ok? ==> FindSource(env, fqn).value.Some? && FindSource(env, fqn).value.value.origin == Project
  {
    FirstModuleHitIsFirst(env.modules, env.files, JavaPath(fqn));
    var i := FirstModuleHit(env.modules, env.files, JavaPath(fqn)).value;
    assert i <= k;
  }

  /** A class with no file in any module is exactly what the archive search says. */
  lemma NoProjectFileSearchesArchives(env: Environment, fqn: string)
    requires forall i :: 0 <= i < |env.modules| ==> PathJoin(env.modules[i], JavaPath(fqn)) !in env.files
    ensures FindSource(env, fqn) == FindInDependencies(env, fqn)
  {
    FirstModuleHitIsFirst(env.modules, env.files, JavaPath(fqn));
  }

  /** A project file's text is kept whole exactly when its path names the class kept
      whole, and is otherwise the skeleton the sanitizer makes of it; a decompiled text
      is what the decompiler printed for the class's entry. */
  lemma FoundTextIsFileOrDecompiled(env: Environment, fqn: string)
    requires FindSource(env, fqn).Ok? && FindSource(env, fqn).value.Some?
    ensures var src := FindSource(env, fqn).value.value;
      if src.origin == Project then
        src.path in env.files &&
        if Contains(src.path, KeptWhole) then src.content == env.files[src.path]
        else env.parse(env.files[src.path]).Parsed? &&
             src.content == SanitizeUnit(env.parse(env.files[src.path]).unit)
      else
        src.path in env.archives && ClassFile(fqn) in env.archives[src.path] &&
        env.decompile(src.path, ClassFile(fqn)) == Some(src.content)
  {
    var src := FindSource(env, fqn).value.value;
    match FirstModuleHit(env.modules, env.files, JavaPath(fqn))
    case Some(i) =>
    case None =>
      var deps := DependencySet(env.report.value);
      FirstFinishedFindsAny(env, env.completion(deps), ClassFile(fqn));
  }
}
