/**
 * The `protocol` goal of the Avro Maven plugin: it lowers every `.genavro`
 * interface definition under the source directory into an `.avpr` protocol in
 * a temporary directory, hands every protocol to the code generator, registers
 * the output directory as a compile source root and removes the temporary
 * directory.
 */
module ProtocolMojo {
  import opened Wrappers
  import opened JavaLang
  import opened JavaIo

  const IdlExtension: string := ".genavro"
  const ProtocolExtension: string := ".avpr"

  /** The default inclusion patterns: every protocol and every interface definition. */
  const DefaultIncludes: seq<string> := ["**/*" + ProtocolExtension, "**/*" + IdlExtension]

  /** The default exclusion patterns: none. */
  const DefaultExcludes: seq<string> := []

  // ---------------------------------------------------------------------------
  // getNameWithoutExtension
  // ---------------------------------------------------------------------------

  /**
   * The file name cut at its last '.', so "x.genavro" gives "x"; `null` gives
   * `null`. A name without any '.' makes `substring(0, -1)` throw, so it is
   * not in the domain.
   */
  function NameWithoutExtension(filename: Option<string>): (r: Option<string>)
    requires filename.Some? ==> '.' in filename.value
    ensures r.None? <==> filename.None?
    ensures r.Some? ==>
              var f, n := filename.value, r.value;
              |n| < |f| && f[..|n|] == n && f[|n|] == '.' && '.' !in f[|n| + 1..]
  {
    match filename
    case None => None
    case Some(f) =>
      var dot := LastIndexOf(f, '.');
      Some(f[..dot])
  }

  // ---------------------------------------------------------------------------
  // deleteDir
  // ---------------------------------------------------------------------------

  /**
   * What `deleteDir(p)` does to the file system `t`, and what it returns:
   * a directory's children are deleted first, in listing order, stopping at
   * the first failure; then `p` itself is deleted.
   */
  function DeleteTree(t: Tree, locked: set<Path>, p: Path): (r: (bool, Tree))
    ensures r.1.Keys <= t.Keys
    ensures forall q :: q in t && !Within(q, p) ==> q in r.1
    ensures forall q :: q in r.1 && !Within(q, p) && (|p| == 0 || q != Parent(p)) ==> r.1[q] == t[q]
    ensures r.0 ==> p in t && forall q :: q in r.1 ==> !Within(q, p)
    ensures |p| > 0 && Parent(p) in t ==>
              r.1[Parent(p)] == if r.0 then Unlisted(t[Parent(p)], Name(p)) else t[Parent(p)]
    ensures !r.0 && DirectoryAt(t, p) ==> DirectoryAt(r.1, p)
    decreases Subtree(t, p), 1, 0
  {
    if DirectoryAt(t, p) then
      var (ok, t1) := DeleteChildren(t, locked, p, t[p].listing, 0);
      if ok then DeleteNode(t1, locked, p) else (false, t1)
    else
      DeleteNode(t, locked, p)
  }

  /**
   * The loop of `deleteDir(p)` from child `i` on: each child is deleted with
   * `deleteDir`, and the first one that fails ends the loop with `false`.
   */
  function DeleteChildren(t: Tree, locked: set<Path>, p: Path, children: seq<string>, i: nat): (r: (bool, Tree))
    requires DirectoryAt(t, p) && i <= |children|
    ensures r.1.Keys <= t.Keys
    ensures DirectoryAt(r.1, p)
    ensures forall q :: q in t && !Within(q, p) ==> q in r.1 && r.1[q] == t[q]
    decreases Subtree(t, p), 0, |children| - i
  {
    if i == |children| then (true, t)
    else
      var child := p + [children[i]];
      SubtreeOfChild(t, p, children[i]);
      var (ok, t1) := DeleteTree(t, locked, child);
      if !ok then (false, t1)
      else
        SubtreeShrinks(t1, t, p);
        DeleteChildren(t1, locked, p, children, i + 1)
  }

  /** A child's subtree is strictly inside its parent's. */
  lemma SubtreeOfChild(t: Tree, p: Path, c: string)
    requires p in t
    ensures forall q :: Within(q, p + [c]) ==> Within(q, p)
    ensures Subtree(t, p + [c]) < Subtree(t, p)
  {
    forall q | Within(q, p + [c]) ensures Within(q, p) {
      assert q[..|p|] == q[..|p| + 1][..|p|];
    }
    assert p in Subtree(t, p) && p !in Subtree(t, p + [c]);
  }

  lemma SubtreeShrinks(t1: Tree, t: Tree, p: Path)
    requires t1.Keys <= t.Keys
    ensures Subtree(t1, p) <= Subtree(t, p)
  {
  }

  /** `deleteDir(path)`, on the path's components. */
  method DeleteDir(fs: FileSystem, p: Path) returns (ok: bool)
    modifies fs
    ensures (ok, fs.tree) == DeleteTree(old(fs.tree), fs.locked, p)
    decreases Subtree(fs.tree, p)
  {
    if fs.Exists(p) && fs.IsDirectory(p) {
      var children := fs.List(p);
      ghost var t0 := fs.tree;
      var i := 0;
      while i < |children|
        invariant 0 <= i <= |children|
        invariant fs.tree.Keys <= t0.Keys
        invariant DirectoryAt(fs.tree, p)
        invariant DeleteChildren(fs.tree, fs.locked, p, children, i) == DeleteChildren(t0, fs.locked, p, children, 0)
      {
        SubtreeOfChild(fs.tree, p, children[i]);
        SubtreeShrinks(fs.tree, t0, p);
        var success := DeleteDir(fs, p + [children[i]]);
        if !success {
          return false;
        }
        i := i + 1;
      }
    }
    ok := fs.Delete(p);
  }

  // ---------------------------------------------------------------------------
  // execute
  // ---------------------------------------------------------------------------

  /**
   * The directories `execute` works with. `tmpOutDir`, where the lowered
   * protocols go, is the `java.io.tmpdir` property followed by "avro", with no
   * separator in between.
   */
  datatype Config = Config(sourceDirectory: string, outputDirectory: string, tmpOutDir: string)

  /**
   * The GenAvro parser followed by `Protocol.toString(true)`: the text of an
   * interface definition to the text of its protocol, or `None` where
   * `CompilationUnit()` throws a `ParseException`.
   */
  type Parser = string -> Option<string>

  /**
   * `SpecificCompiler.compileProtocol`, given the text of the protocol file
   * and the output directory: false where it throws an `IOException`.
   */
  type Compiler = (string, string) -> bool

  /** What `execute` does outside the file system, in order. */
  datatype Effect =
    | MakeDirs(path: string)
    | Parse(path: string)
    | Write(path: string, text: string)
    | Compile(path: string, outputDirectory: string)
    | AddCompileSourceRoot(path: string)
    | Cleanup(path: string)

  /** The two `MojoExecutionException`s `execute` throws. */
  datatype MojoError =
    | ParseError(filename: string, outputDirectory: string)
    | CompileError(filename: string, outputDirectory: string)
  {
    /**
     * The exception's message: it says which of the two errors it is, and it
     * ends with the relative file name and the output directory.
     */
    function Message(): (r: string)
      ensures |r| > 6 && r[..6] == "Error "
      ensures ParseError? <==> r[6] == 'p'
      ensures EndsWith(r, filename + " to " + outputDirectory)
    {
      match this
      case ParseError(f, o) => "Error parsing genavro file " + f + " to " + o
      case CompileError(f, o) => "Error compiling protocol file " + f + " to " + o
    }
  }

  datatype Outcome = Success | Failure(error: MojoError)

  /** The file system, the effects so far, and the error that stopped the loop, if any. */
  datatype Progress = Progress(tree: Tree, log: seq<Effect>, error: Option<MojoError>)

  /** What `execute` returns, leaves on disk and has done. */
  datatype Report = Report(outcome: Outcome, tree: Tree, log: seq<Effect>)

  /** `p` with `log` done before it. */
  function Then(log: seq<Effect>, p: Progress): Progress
  {
    Progress(p.tree, log + p.log, p.error)
  }

  /** The input path ends in ".genavro" exactly when the relative file name does. */
  lemma IdlFilename(dir: string, filename: string)
    ensures EndsWith(dir + [Separator] + filename, IdlExtension) <==> EndsWith(filename, IdlExtension)
    ensures EndsWith(filename, IdlExtension) ==> '.' in filename
  {
    var s := dir + [Separator] + filename;
    var n := |IdlExtension|;
    if EndsWith(s, IdlExtension) {
      assert forall i :: |s| - n <= i < |s| ==> s[i] == IdlExtension[i - (|s| - n)] != Separator;
      assert s[|dir|] == Separator;
      assert s[|s| - n..] == filename[|filename| - n..];
    }
    if EndsWith(filename, IdlExtension) {
      assert s[|s| - n..] == filename[|filename| - n..];
      assert filename[|filename| - n] == '.';
    }
  }

  /** Step 2 of the loop body: `SpecificCompiler.compileProtocol(new File(input), outputDirectory)`. */
  function Generate(t: Tree, outputDirectory: string, compiler: Compiler, filename: string, input: string, log: seq<Effect>): (r: Progress)
    ensures r.tree == t
    ensures r.log == log + [Compile(input, outputDirectory)]
    ensures r.error.Some? ==> r.error.value == CompileError(filename, outputDirectory)
  {
    var done := log + [Compile(input, outputDirectory)];
    if FileAt(t, Split(input)) && compiler(t[Split(input)].content, outputDirectory) then
      Progress(t, done, None)
    else
      Progress(t, done, Some(CompileError(filename, outputDirectory)))
  }

  /** The path of `filename` under the source directory, as the loop body builds it. */
  function InputPath(cfg: Config, filename: string): string
  {
    cfg.sourceDirectory + [Separator] + filename
  }

  /** The protocol file an interface definition is lowered to, under the temporary directory. */
  function OutputPath(cfg: Config, filename: string): string
    requires '.' in filename
  {
    cfg.tmpOutDir + [Separator] + NameWithoutExtension(Some(filename)).value + ProtocolExtension
  }

  /**
   * Step 1 of the loop body for an interface definition: open the input,
   * create the output, parse, print the protocol, then step 2 on the output.
   */
  function Lower(t: Tree, cfg: Config, parser: Parser, compiler: Compiler, filename: string): (r: Progress)
    requires '.' in filename
    ensures r.log != [] ==> r.log[0] == Parse(InputPath(cfg, filename))
    ensures r.log == [] ==> r.tree == t && r.error.Some?
  {
    var input, output := InputPath(cfg, filename), OutputPath(cfg, filename);
    if !FileAt(t, Split(input)) || !CanCreate(t, Split(output)) then
      Progress(t, [], Some(CompileError(filename, cfg.outputDirectory)))
    else
      var t1 := Create(t, Split(output));
      match parser(t1[Split(input)].content)
      case None => Progress(t1, [Parse(input)], Some(ParseError(filename, cfg.outputDirectory)))
      case Some(text) =>
        Generate(t1[Split(output) := File(text)], cfg.outputDirectory, compiler, filename, output, [Parse(input), Write(output, text)])
  }

  /** One pass of the loop body of `execute`, for `filename`. */
  function Step(t: Tree, cfg: Config, parser: Parser, compiler: Compiler, filename: string): (r: Progress)
    ensures r.log != [] ==> (r.log[0].Parse? <==> EndsWith(filename, IdlExtension))
  {
    if EndsWith(InputPath(cfg, filename), IdlExtension) then
      IdlFilename(cfg.sourceDirectory, filename);
      Lower(t, cfg, parser, compiler, filename)
    else
      Generate(t, cfg.outputDirectory, compiler, filename, InputPath(cfg, filename), [])
  }

  /** Which branch of the loop body a file name takes. */
  lemma StepRoute(t: Tree, cfg: Config, parser: Parser, compiler: Compiler, filename: string)
    ensures EndsWith(filename, IdlExtension) ==>
              '.' in filename && Step(t, cfg, parser, compiler, filename) == Lower(t, cfg, parser, compiler, filename)
    ensures !EndsWith(filename, IdlExtension) ==>
              Step(t, cfg, parser, compiler, filename) == Generate(t, cfg.outputDirectory, compiler, filename, InputPath(cfg, filename), [])
  {
    IdlFilename(cfg.sourceDirectory, filename);
  }

  /** The three ways lowering an interface definition can go. */
  lemma LowerCases(t: Tree, cfg: Config, parser: Parser, compiler: Compiler, filename: string)
    requires '.' in filename
    ensures var input, out := Split(InputPath(cfg, filename)), Split(OutputPath(cfg, filename));
            && (!FileAt(t, input) || !CanCreate(t, out) ==>
                  Lower(t, cfg, parser, compiler, filename) == Progress(t, [], Some(CompileError(filename, cfg.outputDirectory))))
            && (FileAt(t, input) && CanCreate(t, out) && parser(Create(t, out)[input].content).None? ==>
                  Lower(t, cfg, parser, compiler, filename)
                    == Progress(Create(t, out), [Parse(InputPath(cfg, filename))], Some(ParseError(filename, cfg.outputDirectory))))
            && (FileAt(t, input) && CanCreate(t, out) && parser(Create(t, out)[input].content).Some? ==>
                  var text := parser(Create(t, out)[input].content).value;
                  Lower(t, cfg, parser, compiler, filename)
                    == Generate(Create(t, out)[out := File(text)], cfg.outputDirectory, compiler, filename, OutputPath(cfg, filename),
                                [Parse(InputPath(cfg, filename)), Write(OutputPath(cfg, filename), text)]))
  {
  }

  /** A pass of a loop body over one file name, from the file system the previous pass left. */
  type Pass = (Tree, string) -> Progress

  /** The loop body of `execute`, for one configuration and its collaborators. */
  function StepOf(cfg: Config, parser: Parser, compiler: Compiler): Pass
  {
    (t: Tree, filename: string) => Step(t, cfg, parser, compiler, filename)
  }

  /** A fail-fast loop: `pass` on each of `files` in turn, ended by the first error. */
  function Batch(pass: Pass, t: Tree, files: seq<string>): (r: Progress)
    ensures r.error.Some? ==> files != []
    ensures (forall t1: Tree, f: string :: pass(t1, f).error.None?) ==> r.error.None?
    decreases |files|
  {
    if files == [] then Progress(t, [], None)
    else
      var s := pass(t, files[0]);
      if s.error.Some? then s
      else Then(s.log, Batch(pass, s.tree, files[1..]))
  }

  /** The whole of `execute`, for the files the file-set manager matched. */
  function Run(t: Tree, locked: set<Path>, cfg: Config, files: seq<string>, parser: Parser, compiler: Compiler): (r: Report)
    ensures r.log == [] <==> !DirectoryAt(t, Split(cfg.sourceDirectory))
    ensures r.outcome.Success? && r.log != [] ==> r.log[|r.log| - 1] == Cleanup(cfg.tmpOutDir)
  {
    if !DirectoryAt(t, Split(cfg.sourceDirectory)) then Report(Success, t, [])
    else
      var tmp := cfg.tmpOutDir;
      var b := Batch(StepOf(cfg, parser, compiler), MkDirs(t, Split(tmp)), files);
      if b.error.Some? then Report(Failure(b.error.value), b.tree, [MakeDirs(tmp)] + b.log)
      else
        Report(Success, DeleteTree(b.tree, locked, Split(tmp)).1,
               [MakeDirs(tmp)] + b.log + [AddCompileSourceRoot(cfg.outputDirectory), Cleanup(tmp)])
  }

  class ProtocolMojo {
    const sourceDirectory: string
    const outputDirectory: string
    const includes: seq<string>
    const excludes: seq<string>

    constructor (sourceDirectory: string, outputDirectory: string)
      ensures this.sourceDirectory == sourceDirectory && this.outputDirectory == outputDirectory
      ensures includes == DefaultIncludes && excludes == DefaultExcludes
    {
      this.sourceDirectory := sourceDirectory;
      this.outputDirectory := outputDirectory;
      includes := DefaultIncludes;
      excludes := DefaultExcludes;
    }

    /** The body of the loop of `execute()` for one file: its effects and the error it throws, if any. */
    method CompileFile(fs: FileSystem, tmpOutDir: string, filename: string, parser: Parser, compiler: Compiler)
      returns (log: seq<Effect>, error: Option<MojoError>)
      modifies fs
      ensures Progress(fs.tree, log, error)
           == Step(old(fs.tree), Config(sourceDirectory, outputDirectory, tmpOutDir), parser, compiler, filename)
    {
      log, error := [], None;
      var input := sourceDirectory + [Separator] + filename;
      if EndsWith(input, IdlExtension) {
        IdlFilename(sourceDirectory, filename);
        var output := tmpOutDir + [Separator] + NameWithoutExtension(Some(filename)).value + ProtocolExtension;
        if !fs.IsFile(Split(input)) {
          return log, Some(CompileError(filename, outputDirectory));
        }
        var created := fs.OpenOutput(Split(output));
        if !created {
          return log, Some(CompileError(filename, outputDirectory));
        }
        var parsed := parser(fs.Read(Split(input)));
        log := log + [Parse(input)];
        if parsed.None? {
          return log, Some(ParseError(filename, outputDirectory));
        }
        fs.Print(Split(output), parsed.value);
        log := log + [Write(output, parsed.value)];
        input := output;
      }
      log, error := CompileProtocol(fs, filename, input, log, compiler);
    }

    /** Step 2 of the loop body: `SpecificCompiler.compileProtocol(new File(input), outputDirectory)` after `before`. */
    method CompileProtocol(fs: FileSystem, filename: string, input: string, before: seq<Effect>, compiler: Compiler)
      returns (log: seq<Effect>, error: Option<MojoError>)
      ensures Progress(fs.tree, log, error) == Generate(fs.tree, outputDirectory, compiler, filename, input, before)
    {
      log, error := before + [Compile(input, outputDirectory)], None;
      if !(fs.IsFile(Split(input)) && compiler(fs.Read(Split(input)), outputDirectory)) {
        error := Some(CompileError(filename, outputDirectory));
      }
    }

    /** The loop of `execute()` over the matched files, ended by the first error it throws. */
    method CompileAll(fs: FileSystem, tmpOutDir: string, includedFiles: seq<string>, parser: Parser, compiler: Compiler)
      returns (log: seq<Effect>, error: Option<MojoError>)
      modifies fs
      ensures Progress(fs.tree, log, error)
           == Batch(StepOf(Config(sourceDirectory, outputDirectory, tmpOutDir), parser, compiler), old(fs.tree), includedFiles)
    {
      ghost var pass := StepOf(Config(sourceDirectory, outputDirectory, tmpOutDir), parser, compiler);
      ghost var start := fs.tree;
      log, error := [], None;
      for k := 0 to |includedFiles|
        invariant Then(log, Batch(pass, fs.tree, includedFiles[k..])) == Batch(pass, start, includedFiles)
      {
        assert includedFiles[k..][0] == includedFiles[k] && includedFiles[k..][1..] == includedFiles[k + 1..];
        var stepLog, stepError := CompileFile(fs, tmpOutDir, includedFiles[k], parser, compiler);
        log := log + stepLog;
        if stepError.Some? {
          return log, stepError;
        }
      }
      assert log + [] == log;
    }

    /**
     * `execute()`. `includedFiles` is what the file-set manager matched under
     * the source directory with `includes` and `excludes`; `tmpDir` is the
     * `java.io.tmpdir` property.
     */
    method Execute(fs: FileSystem, includedFiles: seq<string>, tmpDir: string, parser: Parser, compiler: Compiler)
      returns (outcome: Outcome, log: seq<Effect>)
      modifies fs
      ensures Report(outcome, fs.tree, log)
           == Run(old(fs.tree), fs.locked, Config(sourceDirectory, outputDirectory, tmpDir + "avro"), includedFiles, parser, compiler)
    {
      log := [];
      if !fs.IsDirectory(Split(sourceDirectory)) {
        return Success, log;
      }
      var tmpOutDir := tmpDir + "avro";
      fs.MakeDirs(Split(tmpOutDir));
      var batchLog, error := CompileAll(fs, tmpOutDir, includedFiles, parser, compiler);
      log := [MakeDirs(tmpOutDir)] + batchLog;
      if error.Some? {
        return Failure(error.value), log;
      }
      log := log + [AddCompileSourceRoot(outputDirectory)];
      var _ := DeleteDir(fs, Split(tmpOutDir));
      log := log + [Cleanup(tmpOutDir)];
      outcome := Success;
    }
  }
}
