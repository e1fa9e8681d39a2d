/**
 * What `execute` promises: nothing happens without a source directory, each
 * file is routed by its extension, the loop stops at the first error, the
 * error names the relative file name, and the output directory is registered
 * and the temporary directory removed only after every file succeeded.
 */
module ExecuteProperties {
  import opened Wrappers
  import opened JavaLang
  import opened JavaIo
  import opened ProtocolMojo
  import opened NameProperties
  import opened DeleteDirProperties

  /**
   * The routing rule, independently of the loop: an interface definition
   * `d/x.genavro` goes to the compiler as `tmpOutDir/d/x.avpr`, anything else
   * under its own path.
   */
  function CompilerInput(cfg: Config, filename: string): string
  {
    if EndsWith(filename, IdlExtension) then
      cfg.tmpOutDir + [Separator] + filename[..|filename| - |IdlExtension|] + ProtocolExtension
    else
      InputPath(cfg, filename)
  }

  /** The paths handed to the compiler, in order. */
  function Compiled(log: seq<Effect>): seq<string>
  {
    if log == [] then []
    else (if log[0].Compile? then [log[0].path] else []) + Compiled(log[1..])
  }

  lemma {:induction false} CompiledAppend(a: seq<Effect>, b: seq<Effect>)
    ensures Compiled(a + b) == Compiled(a) + Compiled(b)
  {
    if a != [] {
      assert (a + b)[0] == a[0] && (a + b)[1..] == a[1..] + b;
      CompiledAppend(a[1..], b);
      var head := if a[0].Compile? then [a[0].path] else [];
      assert Compiled(a + b) == head + (Compiled(a[1..]) + Compiled(b));
      assert Compiled(a) == head + Compiled(a[1..]);
    } else {
      assert a + b == b;
    }
  }

  /** The effects that belong to one file: parsing, writing and compiling. */
  predicate FileEffect(e: Effect)
  {
    e.Parse? || e.Write? || e.Compile?
  }

  /** The routed path of an interface definition is the one the loop body builds with `getNameWithoutExtension`. */
  lemma OutputPathRouted(cfg: Config, filename: string)
    requires EndsWith(filename, IdlExtension)
    ensures '.' in filename && OutputPath(cfg, filename) == CompilerInput(cfg, filename)
  {
    NameRoundTrip(filename);
  }

  /** No name ends both in ".genavro" and in ".avpr". */
  lemma NamesDiffer(a: string, b: string)
    requires EndsWith(a, IdlExtension) && EndsWith(b, ProtocolExtension)
    ensures a != b
  {
    assert a[|a| - 1] == IdlExtension[|IdlExtension| - 1] == 'o';
    assert b[|b| - 1] == ProtocolExtension[|ProtocolExtension| - 1] == 'r';
  }

  /** A path ending in ".genavro" and one ending in ".avpr" are different paths. */
  lemma EndingsDiffer(a: string, b: string)
    requires EndsWith(a, IdlExtension) && EndsWith(b, ProtocolExtension)
    ensures Split(a) != Split(b)
  {
    LastComponentEndsWith(a, IdlExtension);
    LastComponentEndsWith(b, ProtocolExtension);
    NamesDiffer(Name(Split(a)), Name(Split(b)));
  }

  /**
   * The protocol file an interface definition is lowered to is never the
   * definition itself: the last component of the one ends in ".genavro", of
   * the other in ".avpr".
   */
  lemma ProtocolFileIsNotInput(cfg: Config, filename: string)
    requires EndsWith(filename, IdlExtension)
    ensures '.' in filename && Split(InputPath(cfg, filename)) != Split(OutputPath(cfg, filename))
  {
    IdlFilename(cfg.sourceDirectory, filename);
    var output := OutputPath(cfg, filename);
    assert output[|output| - |ProtocolExtension|..] == ProtocolExtension;
    EndingsDiffer(InputPath(cfg, filename), output);
  }

  /** Creating the protocol file leaves the interface definition's content as it was. */
  lemma CreateSparesInput(t: Tree, cfg: Config, filename: string)
    requires EndsWith(filename, IdlExtension)
    requires FileAt(t, Split(InputPath(cfg, filename))) && CanCreate(t, Split(CompilerInput(cfg, filename)))
    ensures Create(t, Split(CompilerInput(cfg, filename)))[Split(InputPath(cfg, filename))] == t[Split(InputPath(cfg, filename))]
  {
    OutputPathRouted(cfg, filename);
    ProtocolFileIsNotInput(cfg, filename);
    var input, out := Split(InputPath(cfg, filename)), Split(CompilerInput(cfg, filename));
    assert input != Parent(out);
    assert Create(t, out) == Link(t, out, File(""));
  }

  // ---------------------------------------------------------------------------
  // One file
  // ---------------------------------------------------------------------------

  /** Step 2 hands the compiler its input, after whatever came before. */
  lemma GenerateLog(t: Tree, outputDirectory: string, compiler: Compiler, filename: string, input: string, log: seq<Effect>)
    ensures Compiled(Generate(t, outputDirectory, compiler, filename, input, log).log) == Compiled(log) + [input]
  {
    var c := Compile(input, outputDirectory);
    assert Compiled([c]) == [input] by {
      assert [c][1..] == [];
    }
    CompiledAppend(log, [c]);
  }

  /** Parsing and writing the protocol text hand nothing to the compiler. */
  lemma LoweringCompilesNothing(input: string, output: string, text: string)
    ensures Compiled([Parse(input), Write(output, text)]) == []
  {
    var before := [Parse(input), Write(output, text)];
    assert before[1..] == [Write(output, text)] && before[1..][1..] == [];
    assert Compiled(before[1..]) == [];
  }

  /** Anything that does not end in ".genavro", ".avpr" included, goes to the compiler as it is and is never parsed. */
  lemma RoutesProtocolDirectly(t: Tree, cfg: Config, parser: Parser, compiler: Compiler, filename: string)
    requires !EndsWith(filename, IdlExtension)
    ensures Step(t, cfg, parser, compiler, filename).tree == t
    ensures Step(t, cfg, parser, compiler, filename).log == [Compile(InputPath(cfg, filename), cfg.outputDirectory)]
    ensures Step(t, cfg, parser, compiler, filename).error.None?
        <==> FileAt(t, Split(InputPath(cfg, filename)))
             && compiler(t[Split(InputPath(cfg, filename))].content, cfg.outputDirectory)
  {
    StepRoute(t, cfg, parser, compiler, filename);
  }

  /**
   * An interface definition is parsed, the protocol text is written to
   * `tmpOutDir/<name>.avpr`, and that file, not the original, goes to the
   * compiler, which reads back exactly the text the parser produced.
   */
  lemma RoutesIdlThroughParser(t: Tree, cfg: Config, parser: Parser, compiler: Compiler, filename: string, text: string)
    requires EndsWith(filename, IdlExtension)
    requires FileAt(t, Split(InputPath(cfg, filename))) && CanCreate(t, Split(CompilerInput(cfg, filename)))
    requires parser(t[Split(InputPath(cfg, filename))].content) == Some(text)
    ensures var s := Step(t, cfg, parser, compiler, filename);
            var out := CompilerInput(cfg, filename);
            && s.log == [Parse(InputPath(cfg, filename)), Write(out, text), Compile(out, cfg.outputDirectory)]
            && s.tree == Create(t, Split(out))[Split(out) := File(text)]
            && (s.error.None? <==> compiler(text, cfg.outputDirectory))
  {
    StepRoute(t, cfg, parser, compiler, filename);
    OutputPathRouted(cfg, filename);
    CreateSparesInput(t, cfg, filename);
    LowerCases(t, cfg, parser, compiler, filename);
    var out := Split(CompilerInput(cfg, filename));
    var t2 := Create(t, out)[out := File(text)];
    assert FileAt(t2, out) && t2[out].content == text;
  }

  /**
   * An interface definition that cannot be opened, or whose output file
   * cannot be created, fails with the compiling error before the parser runs;
   * one that does not parse fails with the parsing error. Either way nothing
   * is compiled.
   */
  lemma IdlErrors(t: Tree, cfg: Config, parser: Parser, compiler: Compiler, filename: string)
    requires EndsWith(filename, IdlExtension)
    ensures var s := Step(t, cfg, parser, compiler, filename);
            var input, out := Split(InputPath(cfg, filename)), Split(CompilerInput(cfg, filename));
            && (!FileAt(t, input) || !CanCreate(t, out) ==>
                  s == Progress(t, [], Some(CompileError(filename, cfg.outputDirectory))))
            && (FileAt(t, input) && CanCreate(t, out) && parser(t[input].content).None? ==>
                  s == Progress(Create(t, out), [Parse(InputPath(cfg, filename))], Some(ParseError(filename, cfg.outputDirectory))))
  {
    StepRoute(t, cfg, parser, compiler, filename);
    OutputPathRouted(cfg, filename);
    if FileAt(t, Split(InputPath(cfg, filename))) && CanCreate(t, Split(CompilerInput(cfg, filename))) {
      CreateSparesInput(t, cfg, filename);
    }
    LowerCases(t, cfg, parser, compiler, filename);
  }

  /**
   * Every error of a step names the relative file name and the output
   * directory, never the path the file was rewritten to; it is a parsing error
   * exactly when the parser rejected the file, the only case where the parse
   * is the last thing logged.
   */
  lemma StepErrors(t: Tree, cfg: Config, parser: Parser, compiler: Compiler, filename: string)
    ensures var s := Step(t, cfg, parser, compiler, filename);
            s.error.Some? ==>
              && s.error.value.filename == filename
              && s.error.value.outputDirectory == cfg.outputDirectory
              && (s.error.value.ParseError? <==> s.log == [Parse(InputPath(cfg, filename))])
  {
    StepRoute(t, cfg, parser, compiler, filename);
    if EndsWith(filename, IdlExtension) {
      LowerCases(t, cfg, parser, compiler, filename);
      var input, out := Split(InputPath(cfg, filename)), Split(OutputPath(cfg, filename));
      if FileAt(t, input) && CanCreate(t, out) && parser(Create(t, out)[input].content).Some? {
        var text := parser(Create(t, out)[input].content).value;
        GenerateLog(Create(t, out)[out := File(text)], cfg.outputDirectory, compiler, filename, OutputPath(cfg, filename),
                    [Parse(InputPath(cfg, filename)), Write(OutputPath(cfg, filename), text)]);
      }
    } else {
      GenerateLog(t, cfg.outputDirectory, compiler, filename, InputPath(cfg, filename), []);
    }
  }

  /**
   * An effect of `filename`'s own: the parse of its input path, or the write
   * and the compile of its routed path into the output directory.
   */
  predicate OwnEffect(cfg: Config, filename: string, e: Effect)
  {
    || (e.Parse? && e.path == InputPath(cfg, filename))
    || (e.Write? && e.path == CompilerInput(cfg, filename))
    || (e.Compile? && e.path == CompilerInput(cfg, filename) && e.outputDirectory == cfg.outputDirectory)
  }

  /** A step only ever logs its own file's effects: parsing, writing and compiling. */
  lemma StepEffects(t: Tree, cfg: Config, parser: Parser, compiler: Compiler, filename: string)
    ensures forall e :: e in Step(t, cfg, parser, compiler, filename).log ==> OwnEffect(cfg, filename, e)
    ensures forall e :: e in Step(t, cfg, parser, compiler, filename).log ==> FileEffect(e)
  {
    StepRoute(t, cfg, parser, compiler, filename);
    if EndsWith(filename, IdlExtension) {
      OutputPathRouted(cfg, filename);
      LowerCases(t, cfg, parser, compiler, filename);
    }
  }

  /** A step that succeeds handed the compiler its routed path, once. */
  lemma StepCompiles(t: Tree, cfg: Config, parser: Parser, compiler: Compiler, filename: string)
    ensures var s := Step(t, cfg, parser, compiler, filename);
            s.error.None? ==> Compiled(s.log) == [CompilerInput(cfg, filename)]
  {
    StepRoute(t, cfg, parser, compiler, filename);
    if EndsWith(filename, IdlExtension) {
      OutputPathRouted(cfg, filename);
      LowerCases(t, cfg, parser, compiler, filename);
      var input, out := Split(InputPath(cfg, filename)), Split(OutputPath(cfg, filename));
      if FileAt(t, input) && CanCreate(t, out) && parser(Create(t, out)[input].content).Some? {
        var text := parser(Create(t, out)[input].content).value;
        var before := [Parse(InputPath(cfg, filename)), Write(OutputPath(cfg, filename), text)];
        LoweringCompilesNothing(InputPath(cfg, filename), OutputPath(cfg, filename), text);
        GenerateLog(Create(t, out)[out := File(text)], cfg.outputDirectory, compiler, filename, OutputPath(cfg, filename), before);
      }
    } else {
      GenerateLog(t, cfg.outputDirectory, compiler, filename, InputPath(cfg, filename), []);
    }
  }

  /** A step removes no node and no directory. */
  lemma StepGrows(t: Tree, cfg: Config, parser: Parser, compiler: Compiler, filename: string)
    ensures var s := Step(t, cfg, parser, compiler, filename);
            && t.Keys <= s.tree.Keys
            && (forall q :: DirectoryAt(t, q) ==> DirectoryAt(s.tree, q))
  {
    StepRoute(t, cfg, parser, compiler, filename);
    if EndsWith(filename, IdlExtension) {
      LowerCases(t, cfg, parser, compiler, filename);
    }
  }

  /** A step keeps every part of the tree tidy: the protocol file it creates is listed by its directory. */
  lemma StepTidy(t: Tree, x: Path, cfg: Config, parser: Parser, compiler: Compiler, filename: string)
    requires Tidy(t, x)
    ensures Tidy(Step(t, cfg, parser, compiler, filename).tree, x)
  {
    StepRoute(t, cfg, parser, compiler, filename);
    if EndsWith(filename, IdlExtension) {
      LowerCases(t, cfg, parser, compiler, filename);
      var input, out := Split(InputPath(cfg, filename)), Split(OutputPath(cfg, filename));
      if FileAt(t, input) && CanCreate(t, out) {
        TidyLink(t, x, out, File(""));
        var t1 := Create(t, out);
        assert t1 == Link(t, out, File(""));
        var text := parser(t1[input].content);
        if text.Some? {
          TidyRewrite(t1, x, out, text.value);
        }
      }
    }
  }

  // ---------------------------------------------------------------------------
  // The loop
  // ---------------------------------------------------------------------------

  /** Running the loop over `a + b` is running it over `a` and, unless that failed, over `b` from where it left off. */
  lemma {:induction false} BatchAppend(pass: Pass, t: Tree, a: seq<string>, b: seq<string>)
    ensures var ra := Batch(pass, t, a);
            Batch(pass, t, a + b) == if ra.error.Some? then ra else Then(ra.log, Batch(pass, ra.tree, b))
    decreases |a|
  {
    if a == [] {
      assert a + b == b;
    } else {
      assert (a + b)[0] == a[0] && (a + b)[1..] == a[1..] + b;
      var s := pass(t, a[0]);
      if s.error.None? {
        BatchAppend(pass, s.tree, a[1..], b);
        var ra := Batch(pass, s.tree, a[1..]);
        if ra.error.None? {
          var rb := Batch(pass, ra.tree, b);
          assert s.log + (ra.log + rb.log) == (s.log + ra.log) + rb.log;
        }
      }
    }
  }

  /**
   * Fail-fast: when the files before `files[k]` succeed and `files[k]` fails,
   * the loop ends with that file's pass, and no file after it is attempted,
   * so whatever follows changes nothing.
   */
  lemma FailFast(pass: Pass, t: Tree, files: seq<string>, k: nat)
    requires k < |files|
    requires Batch(pass, t, files[..k]).error.None?
    requires pass(Batch(pass, t, files[..k]).tree, files[k]).error.Some?
    ensures var before := Batch(pass, t, files[..k]);
            Batch(pass, t, files) == Then(before.log, pass(before.tree, files[k]))
    ensures Batch(pass, t, files) == Batch(pass, t, files[..k + 1])
  {
    assert files == files[..k] + files[k..];
    BatchAppend(pass, t, files[..k], files[k..]);
    assert files[..k + 1] == files[..k] + [files[k]];
    BatchAppend(pass, t, files[..k], [files[k]]);
    assert files[k..][0] == files[k];
  }

  /**
   * The converse: an error of the loop is the error of some file `files[k]`
   * all of whose predecessors succeeded.
   */
  lemma {:induction false} FailureLocated(pass: Pass, t: Tree, files: seq<string>)
    requires Batch(pass, t, files).error.Some?
    ensures exists k :: 0 <= k < |files|
              && Batch(pass, t, files[..k]).error.None?
              && pass(Batch(pass, t, files[..k]).tree, files[k]).error.Some?
              && Batch(pass, t, files).error == pass(Batch(pass, t, files[..k]).tree, files[k]).error
    decreases |files|
  {
    var s := pass(t, files[0]);
    assert files[..0] == [];
    if s.error.None? {
      var rest := files[1..];
      FailureLocated(pass, s.tree, rest);
      var k :| 0 <= k < |rest|
              && Batch(pass, s.tree, rest[..k]).error.None?
              && pass(Batch(pass, s.tree, rest[..k]).tree, rest[k]).error.Some?
              && Batch(pass, s.tree, rest).error == pass(Batch(pass, s.tree, rest[..k]).tree, rest[k]).error;
      assert files[..k + 1][0] == files[0] && files[..k + 1][1..] == rest[..k];
      assert files[k + 1] == rest[k];
    }
  }

  /** Everything `p` logged belongs to one file. */
  predicate LogsFileEffects(p: Progress)
  {
    forall e :: e in p.log ==> FileEffect(e)
  }

  /** `t1` still has every node and every directory of `t`. */
  ghost predicate Grows(t: Tree, t1: Tree)
  {
    t.Keys <= t1.Keys && forall q :: DirectoryAt(t, q) ==> DirectoryAt(t1, q)
  }

  /** A loop whose passes log only per-file effects logs only per-file effects. */
  lemma {:induction false} LoopEffects(pass: Pass, t: Tree, files: seq<string>)
    requires forall t1: Tree, f: string :: LogsFileEffects(pass(t1, f))
    ensures LogsFileEffects(Batch(pass, t, files))
    decreases |files|
  {
    if files != [] {
      var s := pass(t, files[0]);
      if s.error.None? {
        LoopEffects(pass, s.tree, files[1..]);
      }
    }
  }

  /** A loop whose successful passes each compile `route` of their file compiles, when it succeeds, every file's `route` in order. */
  lemma {:induction false} LoopCompiles(pass: Pass, route: string -> string, t: Tree, files: seq<string>)
    requires forall t1: Tree, f: string :: pass(t1, f).error.None? ==> Compiled(pass(t1, f).log) == [route(f)]
    ensures var b := Batch(pass, t, files);
            b.error.None? ==> Compiled(b.log) == seq(|files|, i requires 0 <= i < |files| => route(files[i]))
    decreases |files|
  {
    if files != [] {
      var s := pass(t, files[0]);
      if s.error.None? {
        var rest := Batch(pass, s.tree, files[1..]);
        LoopCompiles(pass, route, s.tree, files[1..]);
        CompiledAppend(s.log, rest.log);
      }
    }
  }

  /** A loop whose passes remove nothing removes nothing. */
  lemma {:induction false} LoopGrows(pass: Pass, t: Tree, files: seq<string>)
    requires forall t1: Tree, f: string :: Grows(t1, pass(t1, f).tree)
    ensures Grows(t, Batch(pass, t, files).tree)
    decreases |files|
  {
    if files != [] {
      var s := pass(t, files[0]);
      if s.error.None? {
        LoopGrows(pass, s.tree, files[1..]);
      }
    }
  }

  /** A loop whose passes keep the tree at `x` tidy keeps it tidy. */
  lemma {:induction false} LoopTidy(pass: Pass, x: Path, t: Tree, files: seq<string>)
    requires forall t1: Tree, f: string :: Tidy(t1, x) ==> Tidy(pass(t1, f).tree, x)
    requires Tidy(t, x)
    ensures Tidy(Batch(pass, t, files).tree, x)
    decreases |files|
  {
    if files != [] {
      var s := pass(t, files[0]);
      if s.error.None? {
        LoopTidy(pass, x, s.tree, files[1..]);
      }
    }
  }

  /** The loop of `execute` logs only per-file effects. */
  lemma BatchEffects(t: Tree, cfg: Config, parser: Parser, compiler: Compiler, files: seq<string>)
    ensures forall e :: e in Batch(StepOf(cfg, parser, compiler), t, files).log ==> FileEffect(e)
  {
    forall t1: Tree, f: string
      ensures LogsFileEffects(StepOf(cfg, parser, compiler)(t1, f))
    {
      StepEffects(t1, cfg, parser, compiler, f);
    }
    LoopEffects(StepOf(cfg, parser, compiler), t, files);
  }

  /** A loop of `execute` that succeeds hands the compiler every file, in order, each under its routed path. */
  lemma BatchCompiles(t: Tree, cfg: Config, parser: Parser, compiler: Compiler, files: seq<string>)
    ensures var b := Batch(StepOf(cfg, parser, compiler), t, files);
            b.error.None? ==> Compiled(b.log) == seq(|files|, i requires 0 <= i < |files| => CompilerInput(cfg, files[i]))
  {
    var pass := StepOf(cfg, parser, compiler);
    var route := (f: string) => CompilerInput(cfg, f);
    forall t1: Tree, f: string
      ensures pass(t1, f).error.None? ==> Compiled(pass(t1, f).log) == [route(f)]
    {
      StepCompiles(t1, cfg, parser, compiler, f);
    }
    LoopCompiles(pass, route, t, files);
  }

  /** The loop of `execute` removes no node and no directory. */
  lemma BatchGrows(t: Tree, cfg: Config, parser: Parser, compiler: Compiler, files: seq<string>)
    ensures var b := Batch(StepOf(cfg, parser, compiler), t, files);
            && t.Keys <= b.tree.Keys
            && (forall q :: DirectoryAt(t, q) ==> DirectoryAt(b.tree, q))
  {
    forall t1: Tree, f: string
      ensures Grows(t1, StepOf(cfg, parser, compiler)(t1, f).tree)
    {
      StepGrows(t1, cfg, parser, compiler, f);
    }
    LoopGrows(StepOf(cfg, parser, compiler), t, files);
  }

  /** The loop of `execute` keeps every part of the tree tidy. */
  lemma BatchTidy(t: Tree, x: Path, cfg: Config, parser: Parser, compiler: Compiler, files: seq<string>)
    requires Tidy(t, x)
    ensures Tidy(Batch(StepOf(cfg, parser, compiler), t, files).tree, x)
  {
    forall t1: Tree, f: string | Tidy(t1, x)
      ensures Tidy(StepOf(cfg, parser, compiler)(t1, f).tree, x)
    {
      StepTidy(t1, x, cfg, parser, compiler, f);
    }
    LoopTidy(StepOf(cfg, parser, compiler), x, t, files);
  }

  /**
   * Fail-fast for `execute`: when file k is the first to fail, the loop ends
   * with file k's pass and its error, which carries file k's relative name,
   * whatever files come after it.
   */
  lemma FirstFailure(t: Tree, cfg: Config, parser: Parser, compiler: Compiler, files: seq<string>, k: nat)
    requires k < |files|
    requires Batch(StepOf(cfg, parser, compiler), t, files[..k]).error.None?
    requires Step(Batch(StepOf(cfg, parser, compiler), t, files[..k]).tree, cfg, parser, compiler, files[k]).error.Some?
    ensures var before := Batch(StepOf(cfg, parser, compiler), t, files[..k]);
            var b := Batch(StepOf(cfg, parser, compiler), t, files);
            && b == Then(before.log, Step(before.tree, cfg, parser, compiler, files[k]))
            && b.error.value.filename == files[k]
            && b.error.value.outputDirectory == cfg.outputDirectory
  {
    var pass := StepOf(cfg, parser, compiler);
    var before := Batch(pass, t, files[..k]);
    var s := Step(before.tree, cfg, parser, compiler, files[k]);
    assert pass(before.tree, files[k]) == s;
    FailFast(pass, t, files, k);
    StepErrors(before.tree, cfg, parser, compiler, files[k]);
  }

  /** Every file before one the loop reached has been fully processed: compiled, in order, under its routed path. */
  lemma PrefixCompiled(t: Tree, cfg: Config, parser: Parser, compiler: Compiler, files: seq<string>, k: nat)
    requires k <= |files|
    requires Batch(StepOf(cfg, parser, compiler), t, files[..k]).error.None?
    ensures Compiled(Batch(StepOf(cfg, parser, compiler), t, files[..k]).log)
         == seq(k, i requires 0 <= i < k => CompilerInput(cfg, files[i]))
  {
    BatchCompiles(t, cfg, parser, compiler, files[..k]);
    assert forall i :: 0 <= i < k ==> files[..k][i] == files[i];
  }

  /** Every error of `execute`'s loop names one of the files, the first that failed, and the output directory. */
  lemma ErrorNamesFile(t: Tree, cfg: Config, parser: Parser, compiler: Compiler, files: seq<string>)
    requires Batch(StepOf(cfg, parser, compiler), t, files).error.Some?
    ensures var b := Batch(StepOf(cfg, parser, compiler), t, files);
            exists k :: 0 <= k < |files|
              && Batch(StepOf(cfg, parser, compiler), t, files[..k]).error.None?
              && b.error.value.filename == files[k]
              && b.error.value.outputDirectory == cfg.outputDirectory
  {
    var pass := StepOf(cfg, parser, compiler);
    FailureLocated(pass, t, files);
    var k :| 0 <= k < |files|
              && Batch(pass, t, files[..k]).error.None?
              && pass(Batch(pass, t, files[..k]).tree, files[k]).error.Some?
              && Batch(pass, t, files).error == pass(Batch(pass, t, files[..k]).tree, files[k]).error;
    StepErrors(Batch(pass, t, files[..k]).tree, cfg, parser, compiler, files[k]);
  }

  // ---------------------------------------------------------------------------
  // The whole goal
  // ---------------------------------------------------------------------------

  /** Without a source directory `execute` returns normally and does nothing at all. */
  lemma NoSourceDirectory(t: Tree, locked: set<Path>, cfg: Config, files: seq<string>, parser: Parser, compiler: Compiler)
    requires !DirectoryAt(t, Split(cfg.sourceDirectory))
    ensures Run(t, locked, cfg, files, parser, compiler) == Report(Success, t, [])
  {
  }

  /** Two effects appended after a log that holds neither occur once each. */
  lemma OnceAtTheEnd(first: Effect, middle: seq<Effect>, root: Effect, clean: Effect)
    requires first != root && first != clean && root != clean
    requires root !in middle && clean !in middle
    ensures var log := [first] + middle + [root, clean];
            multiset(log)[root] == 1 && multiset(log)[clean] == 1
  {
    var log := [first] + middle + [root, clean];
    assert multiset(log) == multiset([first]) + multiset(middle) + multiset([root]) + multiset([clean]);
  }

  /**
   * With a source directory, `execute` succeeds exactly when the loop does.
   * Then the output directory is registered once, after every file, and the
   * cleanup comes last; otherwise neither happens.
   */
  lemma RegistrationAndCleanup(t: Tree, locked: set<Path>, cfg: Config, files: seq<string>, parser: Parser, compiler: Compiler)
    requires DirectoryAt(t, Split(cfg.sourceDirectory))
    ensures var r := Run(t, locked, cfg, files, parser, compiler);
            var b := Batch(StepOf(cfg, parser, compiler), MkDirs(t, Split(cfg.tmpOutDir)), files);
            && (r.outcome.Success? <==> b.error.None?)
            && (r.outcome.Failure? ==> r.outcome.error == b.error.value)
            && r.log[0] == MakeDirs(cfg.tmpOutDir)
            && (r.outcome.Success? ==>
                  && r.log == [MakeDirs(cfg.tmpOutDir)] + b.log + [AddCompileSourceRoot(cfg.outputDirectory), Cleanup(cfg.tmpOutDir)]
                  && multiset(r.log)[AddCompileSourceRoot(cfg.outputDirectory)] == 1
                  && multiset(r.log)[Cleanup(cfg.tmpOutDir)] == 1)
            && (r.outcome.Failure? ==>
                  && AddCompileSourceRoot(cfg.outputDirectory) !in r.log
                  && Cleanup(cfg.tmpOutDir) !in r.log)
  {
    var t1 := MkDirs(t, Split(cfg.tmpOutDir));
    var b := Batch(StepOf(cfg, parser, compiler), t1, files);
    BatchEffects(t1, cfg, parser, compiler, files);
    var root, clean := AddCompileSourceRoot(cfg.outputDirectory), Cleanup(cfg.tmpOutDir);
    assert root !in b.log && clean !in b.log;
    var r := Run(t, locked, cfg, files, parser, compiler);
    if b.error.None? {
      OnceAtTheEnd(MakeDirs(cfg.tmpOutDir), b.log, root, clean);
    } else {
      assert r.log == [MakeDirs(cfg.tmpOutDir)] + b.log;
    }
  }

  /** On an error the temporary directory is left behind: the loop never removes anything and the cleanup is skipped. */
  lemma WorkspaceLeaksOnFailure(t: Tree, locked: set<Path>, cfg: Config, files: seq<string>, parser: Parser, compiler: Compiler)
    requires DirectoryAt(t, Split(cfg.sourceDirectory))
    requires DirectoryAt(MkDirs(t, Split(cfg.tmpOutDir)), Split(cfg.tmpOutDir))
    requires Run(t, locked, cfg, files, parser, compiler).outcome.Failure?
    ensures DirectoryAt(Run(t, locked, cfg, files, parser, compiler).tree, Split(cfg.tmpOutDir))
  {
    BatchGrows(MkDirs(t, Split(cfg.tmpOutDir)), cfg, parser, compiler, files);
  }

  /**
   * After a successful run the temporary directory is whatever `deleteDir`
   * left, whose result is ignored. When the disk `execute` started from is
   * tidy at the temporary directory, nothing there is locked, and `mkdirs()`
   * could make it, nothing of it remains: the loop only adds files, each
   * listed by its directory, so `deleteDir` can remove them all.
   */
  lemma WorkspaceRemovedOnSuccess(t: Tree, locked: set<Path>, cfg: Config, files: seq<string>, parser: Parser, compiler: Compiler)
    requires DirectoryAt(t, Split(cfg.sourceDirectory))
    requires Run(t, locked, cfg, files, parser, compiler).outcome.Success?
    ensures var b := Batch(StepOf(cfg, parser, compiler), MkDirs(t, Split(cfg.tmpOutDir)), files);
            Run(t, locked, cfg, files, parser, compiler).tree == DeleteTree(b.tree, locked, Split(cfg.tmpOutDir)).1
    ensures var tmp := Split(cfg.tmpOutDir);
            Tidy(t, tmp) && DirectoryAt(MkDirs(t, tmp), tmp) && (forall q :: Within(q, tmp) ==> q !in locked) ==>
              Subtree(Run(t, locked, cfg, files, parser, compiler).tree, tmp) == {}
  {
    var tmp := Split(cfg.tmpOutDir);
    var t1 := MkDirs(t, tmp);
    var b := Batch(StepOf(cfg, parser, compiler), t1, files);
    if Tidy(t, tmp) && DirectoryAt(t1, tmp) && (forall q :: Within(q, tmp) ==> q !in locked) {
      TidyMkDirs(t, tmp, tmp);
      BatchTidy(t1, tmp, cfg, parser, compiler, files);
      BatchGrows(t1, cfg, parser, compiler, files);
      assert Deletable(b.tree, locked, tmp);
      DeleteAll(b.tree, locked, tmp);
    }
  }
}
