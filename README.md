# ProtocolMojo, modelled in Dafny

This project models the core of the Avro Maven plugin's `ProtocolMojo`: the goal that
compiles Avro protocol files (`.avpr`) and Avro IDL files (`.genavro`) into Java sources.

Its `execute()` does the following:

- It returns at once when the source directory is not a directory.
- It creates a temporary directory, `java.io.tmpdir + "avro"`.
- It walks the matched file names in order. A name ending in `.genavro` is parsed, and the
  parser's protocol text is written to `<tmpOutDir>/<name without extension>.avpr`. That
  written file then replaces the original as the compiler's input. Every other file goes to the
  compiler as it is.
- It stops at the first parse error or I/O error. The error it throws names the relative file
  name and the output directory.
- Only when every file has succeeded does it register the output directory as a compile source
  root and call `deleteDir` on the temporary directory.

`deleteDir` deletes a tree bottom-up. It visits the children in listing order and gives up at
the first deletion that fails. `getNameWithoutExtension` cuts a name at its last `.`.

The files are laid out as follows:

- `java_lang.dfy`: the `String` operations the code uses.
- `java_io.dfy`: the file system. It holds a map from component paths to files and directories,
  where each directory keeps its children's names in listing order. It also holds the
  operations of `java.io.File` and the streams the code uses. The `FileSystem` class is the
  mutable disk, and its `locked` set decides which deletions fail.
- `protocol_mojo.dfy`: the mojo itself. It has the constants, `NameWithoutExtension`, and
  `DeleteTree` as the specification of the imperative `DeleteDir`. `CompileFile`,
  `CompileAll` and `Execute` are the imperative loop body, loop and goal. Each is proved equal to
  a pure specification that logs the goal's effects: `Step`, the loop `Batch` over the body, and
  `Run`. `Batch` is a fail-fast loop over any body, so its ordering lemmas hold for the body
  `execute` uses and for every other.
- `name_properties.dfy`, `delete_dir_properties.dfy` and `execute_properties.dfy`: the
  properties of those specifications.

The parser (`GenAvro.CompilationUnit` followed by `Protocol.toString(true)`) is a parameter of
type `string -> Option<string>`. Its `None` stands for a `ParseException`.
`SpecificCompiler.compileProtocol` is a parameter of type `(string, string) -> bool`.
Its arguments are the protocol text and the output directory, and `false` stands for an
`IOException`. The value of `java.io.tmpdir` and the list of matched files are inputs to
`Execute`.

The model follows the code as written, including these behaviours:

- The temporary directory is the property value with `"avro"` appended and no separator.
- `deleteDir`'s result is ignored. On an error the cleanup is skipped and the temporary
  directory stays behind (`WorkspaceLeaksOnFailure`).
- The input stream is opened before the output file is created, so an unreadable input fails
  before anything is written. The parser reads the input only after the output file has been
  created or truncated. The two paths never coincide: the last component of one ends in
  `.genavro` and of the other in `.avpr` (`ProtocolFileIsNotInput`), so the parser always
  reads the original text (`CreateSparesInput`).
- The `.avpr` file for `d/x.genavro` is written to `<tmpOutDir>/d/x.avpr`, and nothing creates
  `<tmpOutDir>/d`. So an IDL file in a subdirectory fails with the compiling error unless that
  directory already exists (`IdlErrors`).

## Model

| member | source | states |
|---|---|---|
| ProtocolMojo.ProtocolMojo.constructor | src/main/java/org/apache/avro/mojo/ProtocolMojo.java:66-76 | the default includes are `**/*.avpr` then `**/*.genavro`; the default excludes are empty |
| JavaLang.LastIndexOf | src/main/java/org/apache/avro/mojo/ProtocolMojo.java:154 | the result is the last position holding the character, or -1 exactly when the character does not occur |
| ProtocolMojo.NameWithoutExtension | src/main/java/org/apache/avro/mojo/ProtocolMojo.java:150-156 | null maps to null; otherwise the result is the proper prefix before a `.` that is followed by no other `.` |
| NameProperties.NameRoundTrip | src/main/java/org/apache/avro/mojo/ProtocolMojo.java:150-156 | for a name ending in `.genavro`, the result followed by `.genavro` is the name again |
| NameProperties.NameOfExample | src/main/java/org/apache/avro/mojo/ProtocolMojo.java:146-148 | `x.genavro` becomes `x` |
| NameProperties.NamesDistinct | src/main/java/org/apache/avro/mojo/ProtocolMojo.java:119-121 | distinct `.genavro` names get distinct output names |
| NameProperties.NullName | src/main/java/org/apache/avro/mojo/ProtocolMojo.java:151-153 | a null name gives null |
| JavaIo.Split | src/main/java/org/apache/avro/mojo/ProtocolMojo.java:118-130 | no component of a path string is empty or holds a separator |
| JavaIo.SplitSingle | src/main/java/org/apache/avro/mojo/ProtocolMojo.java:118-130 | a non-empty string without separators is the single component it names |
| JavaIo.SplitAppend | src/main/java/org/apache/avro/mojo/ProtocolMojo.java:118-121 | joining two path strings with a separator joins their component lists; with `SplitSingle` this makes the components exactly the runs between separators |
| JavaIo.LastComponentEndsWith | src/main/java/org/apache/avro/mojo/ProtocolMojo.java:118-121 | a path string that ends in a separator-free name has a last component ending in that name |
| JavaIo.DeleteNode | src/main/java/org/apache/avro/mojo/ProtocolMojo.java:175 | `File.delete()` succeeds exactly when the node exists, is not locked and has nothing below it; then exactly that node is gone, its parent no longer lists it, and every other node is as before; otherwise nothing changes |
| JavaIo.FileSystem.Delete | src/main/java/org/apache/avro/mojo/ProtocolMojo.java:175 | the disk changes as `DeleteNode` says |
| JavaIo.FileSystem.MakeDirs | src/main/java/org/apache/avro/mojo/ProtocolMojo.java:113 | the disk becomes `MkDirs` of it: every existing file is unchanged and every directory stays one |
| JavaIo.FileSystem.OpenOutput | src/main/java/org/apache/avro/mojo/ProtocolMojo.java:123 | `new FileOutputStream` succeeds exactly when the parent is a directory and the path is not one; the file is then empty |
| JavaIo.FileSystem.Print | src/main/java/org/apache/avro/mojo/ProtocolMojo.java:126 | the file's content becomes the printed text and nothing else changes |
| ProtocolMojo.DeleteTree | src/main/java/org/apache/avro/mojo/ProtocolMojo.java:162-176 | nothing outside the subtree changes except the parent's listing; success means the node existed and its whole subtree is gone; a directory that fails to go remains a directory |
| ProtocolMojo.DeleteChildren | src/main/java/org/apache/avro/mojo/ProtocolMojo.java:165-171 | deleting the children keeps the directory and everything outside it |
| ProtocolMojo.DeleteDir | src/main/java/org/apache/avro/mojo/ProtocolMojo.java:162-176 | the in-place recursive deletion returns and leaves exactly what `DeleteTree` specifies |
| DeleteDirProperties.LaterSiblingsUntouched | src/main/java/org/apache/avro/mojo/ProtocolMojo.java:166-170 | once a child fails, the siblings after it make no difference: they are never attempted |
| DeleteDirProperties.ChildrenAppend | src/main/java/org/apache/avro/mojo/ProtocolMojo.java:165-171 | deleting the children `a + b` is deleting `a`, then, only if all of them went, deleting `b` from the disk that left |
| DeleteDirProperties.FirstChildFailure | src/main/java/org/apache/avro/mojo/ProtocolMojo.java:158-172 | when the children listed before position k were all deleted, in listing order, and child k fails, `deleteDir` returns false with the disk child k left: no later sibling is attempted and the directory itself remains |
| DeleteDirProperties.NonDirectoryDelete | src/main/java/org/apache/avro/mojo/ProtocolMojo.java:164-175 | for a path that is not a directory, the result is that of one `delete()` |
| DeleteDirProperties.DeleteAll | src/main/java/org/apache/avro/mojo/ProtocolMojo.java:162-176 | when every node of a well-formed subtree can be deleted, the method returns true and no path of the subtree remains |
| DeleteDirProperties.TidyLink | src/main/java/org/apache/avro/mojo/ProtocolMojo.java:123 | creating a file, or an empty directory, under a directory keeps every part of the tree well formed |
| DeleteDirProperties.TidyRewrite | src/main/java/org/apache/avro/mojo/ProtocolMojo.java:126 | overwriting a file's content keeps every part of the tree well formed |
| DeleteDirProperties.MkDirsOnTheWay | src/main/java/org/apache/avro/mojo/ProtocolMojo.java:113 | every directory `mkdirs()` adds lies on the way to its argument |
| DeleteDirProperties.TidyMkDirs | src/main/java/org/apache/avro/mojo/ProtocolMojo.java:113 | `mkdirs()` keeps every part of the tree well formed |
| ProtocolMojo.MojoError.Message | src/main/java/org/apache/avro/mojo/ProtocolMojo.java:131-137 | the message says whether parsing or compiling failed, and ends with the relative file name, ` to ` and the output directory |
| ProtocolMojo.Generate | src/main/java/org/apache/avro/mojo/ProtocolMojo.java:129-133 | step 2 changes nothing on disk, appends one compile of its input to the log, and can fail only with the compiling error |
| ProtocolMojo.Lower | src/main/java/org/apache/avro/mojo/ProtocolMojo.java:119-128 | step 1 logs the parse of the input before anything else; when it logs nothing it has failed and left the disk unchanged |
| ProtocolMojo.Step | src/main/java/org/apache/avro/mojo/ProtocolMojo.java:116-137 | a file's first logged effect is a parse exactly when its name ends in `.genavro` |
| ProtocolMojo.Batch | src/main/java/org/apache/avro/mojo/ProtocolMojo.java:115-138 | the loop can fail only on a non-empty list of files, and never fails when no pass can fail |
| ProtocolMojo.Run | src/main/java/org/apache/avro/mojo/ProtocolMojo.java:89-144 | the goal does something exactly when the source directory is a directory; a successful run that did something ends with the cleanup |
| ProtocolMojo.IdlFilename | src/main/java/org/apache/avro/mojo/ProtocolMojo.java:118-119 | the full input path ends in `.genavro` exactly when the relative name does |
| ProtocolMojo.StepRoute | src/main/java/org/apache/avro/mojo/ProtocolMojo.java:118-130 | a name ending in `.genavro` takes the lowering branch; any other name goes straight to the compiler under its input path |
| ProtocolMojo.ProtocolMojo.CompileProtocol | src/main/java/org/apache/avro/mojo/ProtocolMojo.java:129-133 | the compiler runs on the input path's content, the compile is logged, and a missing file or a rejection gives the compiling error |
| ProtocolMojo.ProtocolMojo.CompileFile | src/main/java/org/apache/avro/mojo/ProtocolMojo.java:116-137 | the loop body's effects, disk and thrown error are those of `Step` |
| ProtocolMojo.ProtocolMojo.CompileAll | src/main/java/org/apache/avro/mojo/ProtocolMojo.java:115-138 | the loop's effects, disk and first error are those of `Batch` over `Step` |
| ProtocolMojo.ProtocolMojo.Execute | src/main/java/org/apache/avro/mojo/ProtocolMojo.java:89-144 | the goal's outcome, disk and effect log are those of `Run`, with the temporary directory `tmpdir + "avro"` |
| ExecuteProperties.ProtocolFileIsNotInput | src/main/java/org/apache/avro/mojo/ProtocolMojo.java:118-121 | the `.avpr` path an IDL file is lowered to is never the IDL file's own path |
| ExecuteProperties.CreateSparesInput | src/main/java/org/apache/avro/mojo/ProtocolMojo.java:122-125 | creating or truncating the output file leaves the IDL file's content as it was |
| ExecuteProperties.OutputPathRouted | src/main/java/org/apache/avro/mojo/ProtocolMojo.java:120-121 | the output path is the temporary directory, the name with `.genavro` cut off, and `.avpr` |
| ExecuteProperties.GenerateLog | src/main/java/org/apache/avro/mojo/ProtocolMojo.java:129-130 | step 2 hands the compiler exactly its input, after whatever was compiled before |
| ExecuteProperties.RoutesProtocolDirectly | src/main/java/org/apache/avro/mojo/ProtocolMojo.java:118-130 | a name not ending in `.genavro` is compiled from its own path, never parsed, and the disk is unchanged; it succeeds exactly when the file exists and the compiler accepts it |
| ExecuteProperties.RoutesIdlThroughParser | src/main/java/org/apache/avro/mojo/ProtocolMojo.java:119-130 | a `.genavro` name is parsed, the text is written to `tmpOutDir/<name>.avpr`, and that path is what the compiler gets; given the parser's verdict on the file as it is on disk, the compiler reads back exactly the parser's text |
| ExecuteProperties.IdlErrors | src/main/java/org/apache/avro/mojo/ProtocolMojo.java:122-137 | an unopenable input or output fails with the compiling error before parsing; a parse failure gives the parsing error; neither compiles |
| ExecuteProperties.StepErrors | src/main/java/org/apache/avro/mojo/ProtocolMojo.java:131-137 | every error carries the relative file name and the output directory; it is the parsing error exactly when only the parse was logged |
| ExecuteProperties.StepEffects | src/main/java/org/apache/avro/mojo/ProtocolMojo.java:116-130 | a file logs only its own effects: the parse of its input path, and the write and compile of its routed path into the output directory |
| ExecuteProperties.StepCompiles | src/main/java/org/apache/avro/mojo/ProtocolMojo.java:119-130 | a file that succeeds handed the compiler its routed path exactly once |
| ExecuteProperties.StepGrows | src/main/java/org/apache/avro/mojo/ProtocolMojo.java:116-130 | a file's processing removes no node and no directory |
| ExecuteProperties.StepTidy | src/main/java/org/apache/avro/mojo/ProtocolMojo.java:116-130 | a file's processing keeps every part of the tree well formed |
| ExecuteProperties.BatchAppend | src/main/java/org/apache/avro/mojo/ProtocolMojo.java:115-138 | the loop over `a + b` is the loop over `a` followed, unless it threw, by the loop over `b` |
| ExecuteProperties.FailFast | src/main/java/org/apache/avro/mojo/ProtocolMojo.java:115-138 | if file k fails after all earlier files succeeded, the loop ends with file k's pass, and no later file is attempted |
| ExecuteProperties.FailureLocated | src/main/java/org/apache/avro/mojo/ProtocolMojo.java:115-138 | every loop error is that of some file whose predecessors all succeeded |
| ExecuteProperties.LoopEffects | src/main/java/org/apache/avro/mojo/ProtocolMojo.java:115-138 | a loop whose passes log only per-file effects logs only those |
| ExecuteProperties.LoopCompiles | src/main/java/org/apache/avro/mojo/ProtocolMojo.java:115-138 | a successful loop compiles every file's routed path, in the order of the files |
| ExecuteProperties.LoopGrows | src/main/java/org/apache/avro/mojo/ProtocolMojo.java:115-138 | a loop whose passes remove nothing removes nothing |
| ExecuteProperties.LoopTidy | src/main/java/org/apache/avro/mojo/ProtocolMojo.java:115-138 | a loop whose passes keep a part of the tree well formed keeps it well formed |
| ExecuteProperties.BatchEffects | src/main/java/org/apache/avro/mojo/ProtocolMojo.java:115-138 | the loop of `execute` logs only per-file effects |
| ExecuteProperties.BatchCompiles | src/main/java/org/apache/avro/mojo/ProtocolMojo.java:115-138 | a successful loop of `execute` hands the compiler every file, in order, under its routed path |
| ExecuteProperties.BatchGrows | src/main/java/org/apache/avro/mojo/ProtocolMojo.java:115-138 | the loop of `execute` removes no node and no directory |
| ExecuteProperties.BatchTidy | src/main/java/org/apache/avro/mojo/ProtocolMojo.java:115-138 | the loop of `execute` keeps every part of the tree well formed |
| ExecuteProperties.PrefixCompiled | src/main/java/org/apache/avro/mojo/ProtocolMojo.java:115-138 | every file before the one the loop reached has gone to the compiler, in order |
| ExecuteProperties.FirstFailure | src/main/java/org/apache/avro/mojo/ProtocolMojo.java:115-138 | when file k is the first to fail, the loop's result is file k's pass after the earlier files, and its error names file k and the output directory |
| ExecuteProperties.ErrorNamesFile | src/main/java/org/apache/avro/mojo/ProtocolMojo.java:115-138 | every error of the loop names a file all of whose predecessors succeeded |
| ExecuteProperties.NoSourceDirectory | src/main/java/org/apache/avro/mojo/ProtocolMojo.java:90-96 | without a source directory, the goal succeeds with no effect and an unchanged disk |
| ExecuteProperties.RegistrationAndCleanup | src/main/java/org/apache/avro/mojo/ProtocolMojo.java:112-143 | the goal succeeds exactly when the loop does; on success the source root is registered exactly once and cleanup comes last; on failure neither happens |
| ExecuteProperties.WorkspaceLeaksOnFailure | src/main/java/org/apache/avro/mojo/ProtocolMojo.java:113-143 | after an error the temporary directory still exists |
| ExecuteProperties.WorkspaceRemovedOnSuccess | src/main/java/org/apache/avro/mojo/ProtocolMojo.java:140-143 | after success the disk is what `deleteDir` left; when the disk the goal started from is well formed at the temporary directory, nothing there is locked and `mkdirs()` can make the directory, none of it remains |

## Left out

- The Maven framework is not modelled: `AbstractMojo`, the parameter injection and `MavenProject`. `addCompileSourceRoot` appears only as an entry in the effect log.
- `FileSetManager` matching against the include and exclude patterns is not modelled. The matched file names are an arbitrary input sequence, and the default patterns are recorded only as constants.
- The IDL grammar, protocol serialisation and Java code generation are foreign calls. They are uninterpreted parameters, and the sources the compiler generates are not placed in the model's file system.
- Unchecked exceptions thrown by the parser or the compiler are not modelled. Only `ParseException` and `IOException` are.
- Real streams are not modelled. Writing the protocol text is one atomic update of the file's content, and the unclosed `PrintStream` and `FileInputStream` are not represented.
- Paths use `/` as the only separator, and empty path components are dropped. `getAbsolutePath()` is the identity, because the model has no working directory. Symbolic links do not exist.
- `mkdirs` creates missing directories top-down, from the nearest existing directory. A file in the way stops it, and a failed `mkdirs` is ignored just as in the source.
- JavaIo.FileSystem.OpenOutput: opening a stream fails only for structural reasons: a missing input, a parent that is not a directory, or a directory in the way of the output. The same applies to `IsFile`, which decides whether `new FileInputStream` opens. Permissions, a read-only disk and I/O errors while reading are not modelled, so they never turn into the compiling error.
- `File.list()` never returns null in the model. For a directory it returns the listing, and `deleteDir` calls it only on directories. An I/O error there, which makes the source throw a `NullPointerException`, is not modelled.
- Why a deletion fails (permissions, open handles, concurrent changes) is not modelled: a fixed set of locked paths decides it.
- Two builds running at once and sharing the temporary directory are not modelled.
- NameWithoutExtension: requires a `.` in a non-null name. On such a name the source throws `StringIndexOutOfBoundsException`, and `execute` only calls it on names ending in `.genavro`.
- WorkspaceRemovedOnSuccess: promises that nothing of the temporary directory remains only when the starting disk is well formed there, nothing there is locked, and `mkdirs()` can make the directory. Without those conditions it promises only that the disk is what `deleteDir` left.
- DeleteAll: proves complete deletion only for well-formed trees, where every node below the root is listed exactly once by its parent directory and nothing is locked.
