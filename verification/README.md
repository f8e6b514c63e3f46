# Source extraction for a Maven multi-module project, modelled in Dafny

The system collects, for one Java class, the source of that class and of every
class it imports, and writes them into one bundle file. It has two parts.

- The signature-skeleton renderer (`JavaCodeSanitizer`). It reads a parsed Java
  file and writes a skeleton of it. Each class gets a header line. Each
  non-private field gets a line with its first variable only. Each non-private
  method gets its signature and an empty body. Annotations among the modifiers
  of classes, fields and methods are dropped. Those among a parameter's
  modifiers are kept.
- The scanner (`main.py`). It looks for a class first in the project's modules.
  A project file is passed through the renderer, except for one class that is
  kept whole. When no module holds the class, the scanner first tests whether
  the class belongs to a target package. A class outside them is given up at
  once. For a target class it runs Maven's dependency tree report and searches
  the archives of the dependencies it names in the local repository. It extracts the
  imports of the found text and looks each of them up the same way. A skeleton
  has no imports, so a target taken from a sanitized project file is bundled
  alone. Finally it
  writes every text found into one bundle, each behind a
  `// ==== Source: <class> ====` banner.

The model is split by the program's structure:

| file | module | what it holds |
|---|---|---|
| `wrappers.dfy` | `Wrappers` | `Option` and `Result` |
| `pytext.dfy` | `PyText` | the Python string operations the code uses: `strip`, `split`, `join`, `replace`, `startswith`, `in`, `os.path.join` |
| `java_ast.dfy` | `JavaAst` | the parse tree, limited to the attributes the renderer reads |
| `sanitizer.dfy` | `Sanitizer` | the renderer |
| `type_syntax.dfy` | `TypeSyntax` | a reader for rendered type texts, used to show what rendering keeps |
| `dependencies.dfy` | `Dependencies` | reading the dependency report, and archive paths |
| `imports.dfy` | `Imports` | the import regular expression, as a scanner |
| `source_scanner.dfy` | `Scanner` | module lookup, the archive search, `find_source` |
| `bundle.dfy` | `Bundle` | the source map built by `main` and its serialisation |

The file system, the Maven run, the zip reader, the decompiler and the Java
parser are inputs. They are the fields of `Scanner.Environment`:

- `modules`: the module source roots, in discovery order;
- `files`: file path to file text;
- `parse`: the parser's outcome for a text;
- `report`: the Maven report's standard output, or its standard error on a
  non-zero exit;
- `archives`: archive path to the entry names it holds;
- `decompile`: the decompiler's output for an archive and an entry, or nothing
  when it fails;
- `completion`: the order in which the archive checks finish.

## Model

| member | source | states |
|---|---|---|
| Sanitizer.Sanitize | source_cut.py:19-33 | A parse error becomes the error result, with its position and message. A parsed file becomes the line-feed join of all lines of the blocks of the classes the walk visits, one block per class, in visit order. |
| Sanitizer.SanitizeUnit | source_cut.py:30-33 | The skeleton of a parsed file. Sanitizer.Sanitize and Sanitizer.UnitPiecesAreClassBlocks state what it holds. |
| Sanitizer.VisitUnit | source_cut.py:31 | The walk over every class declaration of the tree. Sanitizer.InnerClassesVisited states that it reaches the classes inside every member. |
| Sanitizer.VisitClass | source_cut.py:31 | The walk below one class: the class, then the classes inside its members, in body order. Sanitizer.InnerClassesVisited states what it reaches. |
| Sanitizer.UnitPieces | source_cut.py:30-32 | The `processed_code` list for the visited classes. Sanitizer.UnitPiecesAreClassBlocks states that it is their blocks laid end to end. |
| Sanitizer.ClassPieces | source_cut.py:35-46 | `_process_class`: what one class appends. Sanitizer.UnitPiecesAreClassBlocks and Sanitizer.BodyPiecesAreRetainedLines state that it is the header line, the kept members' lines and the closing brace. |
| Sanitizer.MemberPieces | source_cut.py:40-44 | What one member of the body appends. Sanitizer.MemberPiecesOfRetained states it for every kind of member. |
| Sanitizer.BodyPieces | source_cut.py:40-44 | The member loop over a class body. Sanitizer.BodyPiecesAreRetainedLines, Sanitizer.BodyPiecesAppend and Sanitizer.DroppedMemberLeavesNoTrace state what it appends. |
| Sanitizer.MethodLine | source_cut.py:79-85 | `_process_method`'s line for a kept method. Sanitizer.MemberPiecesOfRetained, Sanitizer.AnnotationLeavesMemberUnchanged and Bundle.MemberLineFrame state its properties. |
| Sanitizer.MethodComponents | source_cut.py:92-120 | The components list of a method signature. Sanitizer.LastComponentEndsWithParenIffNoThrows states what its last component is. |
| Sanitizer.InnerClassesVisited | source_cut.py:31-32 | A class declared inside any member of a class is visited: a local class in a method, a class in an anonymous class body in a field's initializer, or a nested class. This holds whatever the member's modifiers. |
| Sanitizer.ClassBlock | source_cut.py:35-46 | A class's block has two lines more than the class has kept members. |
| Sanitizer.UnitPiecesAreClassBlocks | source_cut.py:30-46 | The pieces emitted for the visited classes are, class by class, the header with ` {`, one line per non-private field and method in body order, and `}`. |
| Sanitizer.OneClassSkeleton | source_cut.py:19-46 | A file in which the walk reaches one class sanitizes to that class's block joined by line feeds. The block has the body size less the private and other members, plus two, lines. |
| Sanitizer.RenderType | source_cut.py:124-149 | The type renderer. TypeSyntax.RenderedTypeParsesBack and TypeSyntax.RenderIsPrintOfNorm state what it keeps. |
| Sanitizer.FieldLine | source_cut.py:70-77 | A field's line. Sanitizer.FieldShowsFirstDeclaratorOnly and Sanitizer.AnnotationLeavesMemberUnchanged state its properties. |
| Sanitizer.ParameterText | source_cut.py:110-115 | One parameter's text. Sanitizer.ParameterKeepsEveryModifier and Sanitizer.VarargsLeavesNoBrackets state its properties. |
| Sanitizer.MethodSignature | source_cut.py:87-122 | A method's signature. Sanitizer.ThrowsClauseIffThrows, Sanitizer.ConstructorIgnoresReturnType and Sanitizer.EmptyReturnTypeShowsVoid state its properties. |
| Sanitizer.ClassHeader | source_cut.py:48-68 | A class header. Sanitizer.AnnotationLeavesHeaderUnchanged and Sanitizer.NonEmptyParts state its properties. |
| Sanitizer.NonAnnotations | source_cut.py:52 | The kept modifiers are exactly the given ones that do not start with `@`. |
| Sanitizer.ReturnText | source_cut.py:101-103 | The return component of a non-constructor is never empty. |
| Sanitizer.NonEmptyParts | source_cut.py:63-68 | `filter(None, …)` keeps exactly the non-empty parts. |
| Sanitizer.RetainedMembers | source_cut.py:40-44 | Only fields and methods without `private` are kept. |
| Sanitizer.MemberLines | source_cut.py:40-44 | One line per kept member. |
| Sanitizer.MemberPiecesOfRetained | source_cut.py:70-85 | A kept member contributes exactly its line. A private field or method, or any other member, contributes nothing. |
| Sanitizer.BodyPiecesAreRetainedLines | source_cut.py:40-46 | A class's member lines are the lines of its kept members, in body order. Their number is the body size less the private and other members. |
| Sanitizer.BodyPiecesAppend | source_cut.py:40-44 | The member lines of two bodies laid end to end are the lines of each. |
| Sanitizer.DroppedMemberLeavesNoTrace | source_cut.py:72-73 | Inserting a private or non-field, non-method member anywhere in a body does not change its lines. |
| Sanitizer.NonAnnotationsAppend | source_cut.py:52 | Dropping annotations commutes with concatenating modifier lists. |
| Sanitizer.AnnotationDropped | source_cut.py:75 | An annotation anywhere among the modifiers leaves the kept modifiers unchanged. |
| Sanitizer.AnnotationLeavesMemberUnchanged | source_cut.py:75-91 | An annotation among a field's or method's modifiers does not change the member's output. |
| Sanitizer.AnnotationLeavesHeaderUnchanged | source_cut.py:48-68 | An annotation among a class's modifiers does not change the class header. |
| Sanitizer.ParameterKeepsEveryModifier | source_cut.py:110-115 | Parameter modifiers appear as given, annotations included. Only the blanks at the two ends of the parameter text are stripped. |
| Sanitizer.FieldShowsFirstDeclaratorOnly | source_cut.py:70-77 | Names declared after the first do not change the field's line. |
| Sanitizer.ConstructorIgnoresReturnType | source_cut.py:98-103 | A method named like its class has the same signature whatever its return type. |
| Sanitizer.EmptyReturnTypeShowsVoid | source_cut.py:101-103 | Any other method whose return type renders empty has the signature of a `void` method. |
| Sanitizer.RenderTypeChars | source_cut.py:124-149 | A type whose names are proper names renders to name characters, brackets, commas, blanks and `?` only. |
| Sanitizer.ThrowsClauseIffThrows | source_cut.py:118-122 | The signature ends with `)` exactly when the method throws nothing. Otherwise it ends with `throws` followed by the rendered exception types, joined by `, `, in order. |
| Sanitizer.LastComponentEndsWithParenIffNoThrows | source_cut.py:116-120 | The last signature component ends with `)` exactly when nothing is thrown. |
| Sanitizer.VarargsArrayShowsDots | source_cut.py:111-113 | A varargs array of a plain name shows one `...` per dimension. |
| Sanitizer.VarargsLeavesNoBrackets | source_cut.py:112-113 | A varargs type text never contains `[]`. |
| TypeSyntax.RenderIsPrintOfNorm | source_cut.py:124-149 | Rendering a type writes out its shape. The shape records the wildcard, generic and array precedence of the renderer. |
| TypeSyntax.NormWellFormed | source_cut.py:130-149 | The shape of a type with proper names is well formed. |
| TypeSyntax.ParsePrinted | source_cut.py:130-149 | Reading a printed shape, followed by any text a type can be followed by, gives back the shape and the rest. |
| TypeSyntax.ReadsExtends | source_cut.py:134-135 | `? extends B` reads as an upper-bounded wildcard. |
| TypeSyntax.ReadsSuper | source_cut.py:136-137 | `? super B` reads as a lower-bounded wildcard. |
| TypeSyntax.ReadsGeneric | source_cut.py:141-143 | `Name<A, B>` reads as a generic type with those arguments. |
| TypeSyntax.ReadsPlain | source_cut.py:146-149 | `Name` followed by d copies of `[]` reads as that name with d dimensions. |
| TypeSyntax.RenderedTypeParsesBack | source_cut.py:124-149 | The text of a type with proper names reads back as exactly that type's shape. |
| TypeSyntax.SameTextSameShape | source_cut.py:124-149 | Two such types render to the same text only when their shapes agree. |
| Dependencies.ParseDependencyLine | main.py:55-81 | A line yields a dependency exactly when its stripped form starts with `[INFO]`, it has at least five fields, and the version is non-empty and free of `${`. The dependency is fields 0, 1 and 3 of the text after the markers. |
| Dependencies.MarkedLineFields | main.py:57-64 | A dependency line printed with tree indentation and either branch marker passes the `[INFO]` test, and its fields are the printed ones, however many there are. |
| Dependencies.ClassifierReadAsVersion | main.py:64-71 | A six-field line `group:artifact:packaging:classifier:version:scope` is read with the classifier in the version's place. |
| Dependencies.DependencySet | main.py:85-95 | What a whole report yields. Dependencies.ReportDependencies and Dependencies.ParseDependencyOutput state what it holds. |
| Dependencies.BuildJarPath | main.py:168-175 | An archive's path. Dependencies.JarPathSegments and Dependencies.JarPathInjective state its properties. |
| Dependencies.Skipped | main.py:88 | The line filter of the report loop. Dependencies.EntryNotBanner and Dependencies.BuildVersionDropped state which entry lines it skips. |
| Dependencies.Fields | main.py:61-64 | A line always has at least one field. |
| Dependencies.LineDependencies | main.py:86-93 | A single line contributes at most one dependency. |
| Dependencies.DependencySetOfLines | main.py:86 | Lines are read independently: joining two reports by a line feed unites their dependencies. |
| Dependencies.ParseDependencyOutput | main.py:83-95 | The result holds exactly the dependencies of the lines that are not skipped, each once. |
| Dependencies.AddLine | main.py:86-93 | One loop step adds the line's dependency unless it was already seen, keeps the earlier ones in front, and keeps them distinct. |
| Dependencies.EntryParses | main.py:55-81 | A well-formed tree entry line, with either branch marker, reads back as the entry's coordinate. |
| Dependencies.EntryLineFields | main.py:61-64 | The fields of a tree entry line are the entry's five fields, whatever its indentation and marker. |
| Dependencies.EntryMarkersRemoved | main.py:61 | Removing the markers of an entry line leaves exactly the entry's body. |
| Dependencies.EntryNotBanner | main.py:88 | An entry line is never skipped as a `[INFO] ---` banner. |
| Dependencies.ReportDependencies | main.py:83-95 | A report made of entry lines yields exactly the coordinates of the entries whose line does not mention `BUILD`. |
| Dependencies.ReportNamesOnlyEntries | main.py:85-95 | Every dependency read from such a report is the coordinate of one of its entries. |
| Dependencies.ReportNamesEveryEntry | main.py:85-95 | Every entry of such a report whose line does not mention `BUILD` is read. |
| Dependencies.BuildVersionDropped | main.py:88-89 | A dependency whose version mentions `BUILD` is skipped with its line. |
| Dependencies.RootLineIgnored | main.py:64-66 | The project's own root line has four fields and yields nothing. |
| Dependencies.OmittedEntryKeepsParenthesis | main.py:61-71 | A verbose `(g:a:jar:v:scope - omitted for duplicate)` line is read with the opening parenthesis in the group. |
| Dependencies.JarPathUnderRepository | main.py:168-175 | An archive path is the repository, a `/`, and the path below it, whenever the version is non-empty and does not end with `/` and the artifact does not start with `/`. Any other character may occur in the fields. |
| Dependencies.GroupDirectorySegments | main.py:171 | The dots of a group without `/` become directory separators: one directory per dot-separated part. |
| Dependencies.JarPathSegments | main.py:168-175 | For fields without `/`, the path components below the repository are the group's parts, then artifact, version and `artifact-version.jar`. |
| Dependencies.JarPathInjective | main.py:168-175 | Distinct dependencies whose fields hold no `/` and whose versions are non-empty get distinct archive paths. |
| Dependencies.OmittedEntryProbesParenthesisedDirectory | main.py:168-175 | For a verbose "omitted for duplicate" line, the archive probed lies under a first directory that is `(` followed by the group's first part. |
| Imports.FindAll | main.py:225 | `re.findall` with the import pattern. Imports.FindAllFindsEveryMatch states what it returns. |
| Imports.ReferencedClasses | main.py:222-226 | `get_referenced_classes`. Imports.ReferencedIffImportStatement and Imports.SingleImportLine state what it returns. |
| Imports.SpaceRunSpaces | main.py:225 | Everything the `\s+` run takes is whitespace. |
| Imports.LazyNameSound | main.py:225 | The lazy group is made of `[\w.]` characters, and no shorter group is followed by `;` or `.*;`. |
| Imports.Dedup | main.py:226 | The result holds each input element exactly once. |
| Imports.MatchTextSound | main.py:225 | A match at the front of a text is an import statement. Its group is the name the statement spells. |
| Imports.MatchTextComplete | main.py:225 | Every import statement at the front of a text is matched, with the name it spells. |
| Imports.NoMatchInside | main.py:225 | No match starts strictly inside another, so the non-overlapping search hides none. |
| Imports.FindAllFindsEveryMatch | main.py:225 | `findall` returns a name exactly when the pattern matches with that name at some position from the start position on. |
| Imports.FoundIffStatement | main.py:225 | The pattern matches at a position exactly where an import statement starts a line. |
| Imports.ReferencedIffImportStatement | main.py:222-226 | A name is referenced exactly when an import statement at the start of some line spells it. |
| Imports.PlainImportMatches | main.py:225 | `import a.b.C;` is matched with the whole name as the group. |
| Imports.WildcardImportMatches | main.py:225 | `import a.b.*;` is matched with `a.b` as the group. |
| Imports.StaticImportIgnored | main.py:225 | `import static …` is never matched. |
| Imports.SingleImportLine | main.py:222-226 | A single import line references exactly the name it imports. |
| Scanner.IsTargetPackage | main.py:104-106 | The package test. Scanner.TargetPackageTwoPrefixes states when it holds. |
| Scanner.FindSource | main.py:108-131 | `find_source`. Scanner.ProjectFileWins, Scanner.NoProjectFileSearchesArchives and Scanner.FoundTextIsFileOrDecompiled state what it returns. |
| Scanner.TargetPackageTwoPrefixes | main.py:104-106 | A name is in a target package exactly when it starts with `com.aidc` or `com.alibaba`. |
| Scanner.PrefixIgnoresPackageBoundary | main.py:104-106 | The prefix test compares text, not packages: `com.alibabacloud.Client` counts as a target. |
| Scanner.JavaPath | main.py:111 | A class's source file path. Scanner.JavaPathRoundTrip and Scanner.ModuleFileBelowRoot state its properties. |
| Scanner.ClassFile | main.py:139 | A class's archive entry name. Scanner.ClassFileRoundTrip states its property. |
| Scanner.JavaPathRoundTrip | main.py:111 | A class name without `/` is recovered from its source file path. |
| Scanner.ClassFileRoundTrip | main.py:139 | A class name without `/` is recovered from its archive entry name. |
| Scanner.ModuleFileBelowRoot | main.py:114 | For a class name not starting with a dot, the file is looked for below the module root. |
| Scanner.LeadingDotLeavesModules | main.py:114 | A class name starting with a dot gives an absolute path, which replaces the module root. |
| Scanner.FirstModuleHit | main.py:113-115 | A hit names a module holding the file. |
| Scanner.FirstModuleHitIsFirst | main.py:113-128 | The lookup finds the earliest module holding the file, and misses only when no module holds it. |
| Scanner.CheckJar | main.py:186-219 | A check yields a text exactly when the archive exists, holds the entry and the decompiler succeeds. The text is the decompiler's output and the path is the archive's. |
| Scanner.FirstFinished | main.py:156-166 | The search result is always a decompiled record. |
| Scanner.FirstFinishedFindsAny | main.py:146-166 | Whatever order the checks finish in, the search finds nothing only when no archive yields the class. Otherwise it returns what some archive yields. |
| Scanner.FindInDependencies | main.py:133-166 | A class outside the target packages gives nothing, before the report is read. A failed report raises its standard error. |
| Scanner.DependencySearchFindsAny | main.py:133-166 | For a target class and a successful report, the search finds nothing exactly when no archive of a named dependency yields the class. Otherwise it returns the text of one such archive. |
| Scanner.ProjectSource | main.py:116-128 | A project file is kept whole when its path names `CapacityAlgorithmInvokeProcessor`. Otherwise its text is the skeleton of the parsed file, or the record is the renderer's syntax error with the parser's position and message. |
| Scanner.ProjectFileWins | main.py:108-128 | A class held by some module comes from the earliest such module, and the archives are never searched. |
| Scanner.NoProjectFileSearchesArchives | main.py:129-131 | A class held by no module gives exactly what the archive search gives. |
| Scanner.FoundTextIsFileOrDecompiled | main.py:108-131 | A project record's text is the file itself when its path names `CapacityAlgorithmInvokeProcessor`, and the file's skeleton otherwise. A decompiled record's text is the decompiler's output for the class's entry. |
| Bundle.CollectReferences | main.py:249-253 | The loop over the references. Bundle.CollectContents and Bundle.CollectFailsAtFirstRaise state what it does. |
| Bundle.BuildSourceMap | main.py:243-253 | The source map. Bundle.SourceMapContents states what it holds. |
| Bundle.Serialize | main.py:259-263 | The bundle text. Bundle.SerializeAt and Bundle.WrittenFileBlocks state its layout. |
| Bundle.OutputPath | main.py:257 | The bundle's file name. Bundle.OutputPathInDirectory, Bundle.OutputPathInjective and Bundle.OutputPathCollision state its properties. |
| Bundle.Assemble | main.py:234-263 | The body of `main` over a lookup function. Bundle.AssembleOutcomes and Bundle.WrittenFileBlocks state its outcomes. |
| Bundle.Run | main.py:229-263 | `main` over the scanner. Bundle.RunNotFound states its not-found outcome. |
| Bundle.Insert | main.py:253 | `source_map[cls] = …`. Bundle.InsertGet and Bundle.InsertKeys state its effect. |
| Bundle.Block | main.py:261-263 | The three writes for one entry. Bundle.SerializeAt, Bundle.WrittenFileBlocks and Bundle.UnreferencingTargetWrittenAlone state where the blocks stand. |
| Bundle.InsertGet | main.py:253 | After `m[k] = v`, `k` maps to `v` and every other key keeps its value. |
| Bundle.InsertKeys | main.py:253 | Assignment keeps the existing keys in order and appends a new key. The keys stay distinct. |
| Bundle.GetIffKey | main.py:248-253 | A key maps to a value exactly when it is one of the keys. |
| Bundle.GetAt | main.py:260 | With distinct keys, the value iterated at a position is the value looked up. |
| Bundle.FirstRaiseIsFirst | main.py:249-251 | Every reference before the first raising one returned normally. With no raising reference, no lookup raises. |
| Bundle.CollectFailsAtFirstRaise | main.py:249-253 | The loop fails exactly when some reference's lookup raises, and then with the first such exception. |
| Bundle.CollectContents | main.py:249-253 | Every located reference maps to its text, every other key keeps its value, and the earlier keys stay in front. |
| Bundle.SourceMapContents | main.py:243-253 | The target's text comes first. After it come exactly the located references, each with its own text, once. |
| Bundle.SerializeAt | main.py:259-263 | Every entry's block stands in the file after the blocks of the entries before it. |
| Bundle.AssembleOutcomes | main.py:234-253 | Nothing is written exactly when the target is not found. The run fails exactly when the target's lookup or a reference's lookup raises, with the first such exception. |
| Bundle.WrittenFileBlocks | main.py:257-263 | The file goes to the target's output path, opens with the target's block, and holds the block of every located reference. |
| Bundle.RunNotFound | main.py:234-238 | Over the scanner, nothing is written exactly when the target is found nowhere. |
| Bundle.OutputPathInDirectory | main.py:257 | For a class name not starting with `/`, the bundle lies in `./source_collection`. |
| Bundle.OutputPathInjective | main.py:257 | Distinct class names without `_` get distinct bundle files. |
| Bundle.OutputPathCollision | main.py:257 | With `_` allowed, `a.B` and `a_B` share one bundle file. |
| Imports.NoImportLineNoReferences | main.py:222-226 | A text in which no line starts with `import` references no class. |
| Imports.JoinedLinesNoImportLine | main.py:225 | Single lines not starting with `import`, joined by line feeds, give a text with no line starting with `import`. |
| Imports.NoImportLineAppend | main.py:225 | A text ending with a line feed, put in front of another, creates no import line across the two. |
| Bundle.MemberLineFrame | source_cut.py:77-85 | A kept member's line starts with the indentation and ends with a line feed. |
| Bundle.ClassBlockLines | source_cut.py:35-46 | Every line of a plain class's block is a single line that does not start with `import`. |
| Bundle.SkeletonReferencesNothing | main.py:222-226 | The skeleton of a file whose classes are plain references no class. |
| Bundle.UnreferencingTargetWrittenAlone | main.py:243-263 | A target whose text references no class is written as its own block and nothing else. |
| Bundle.SanitizedTargetWrittenAlone | main.py:240-263 | If the parser yields plain classes only, a target taken from a sanitized project file is written alone. None of the classes that file imports is looked up. |

## Left out

- The Java parser is the `parse` input, and its tree is the `JavaAst` datatype, which holds only what the renderer reads. By the model's convention a constructor is a method whose name equals its class's name, because that is the only constructor test the renderer makes (source_cut.py:98). A parser's separate constructor node is an `Other` member and is skipped. `throws` entries are types, dimensions are a count, and annotations are modifiers starting with `@`.
- The walk's order over the classes inside one member is taken as given: each member lists them in walk order.
- Module discovery by walking the directory tree (`find_start_module`, `find_all_modules`) is file-system traversal. The module roots are the `modules` input.
- Running `mvn dependency:tree` is a subprocess. Its standard output, or its standard error on failure, is the `report` input. The code reruns it for every archive search. With a fixed report this gives the same text each time, so the model reads the report once per search.
- Zip reading, `unzip` and the decompiler are I/O. They are the `archives` and `decompile` inputs. A corrupt archive is treated like one that lacks the entry. A decompiler failure and a swallowed exception both give nothing.
- The thread pool, cancellation and progress printing are concurrency and console output. The finishing order of the archive checks is the `completion` input, so the result holds for every order. Concurrent extractions of one entry into the shared class directory are not modelled.
- A path that exists but cannot be opened, for example a directory, is not modelled. A file path either has a text in `files` or does not exist.
- Imports.Dedup: `list(set(...))` has Python's hash order. The model keeps the first occurrence instead, so the referenced classes and the bundle's entry order are only one of the orders the code may produce.
- `\w` is modelled as the ASCII word characters `[A-Za-z0-9_]`. Python's Unicode word characters outside ASCII are not.
- The unused scope computation in `parse_dependency_line` is dead code.
- Creating the output directory, write errors, printing, the exit status and the `__main__` demonstrations are I/O.
- Dependencies.ParseDependencyOutput: the code returns `list(set(...))` in hash order. The model returns the dependencies in order of first appearance. The contract states only membership and distinctness, which hold for any order.
- Bundle.SourceMapContents: a reference equal to the target triggers a second lookup of the target (main.py:251). Repeated lookups of one class are modelled as agreeing, because the scanner is a fixed function of its inputs. In the code, a second archive search for a decompiled target can pick a different archive's text under other thread timing, and that text then replaces the target's entry.
- Scanner.FindInDependencies: the contract does not fix which archive wins when several yield the class. That depends on thread timing, and Scanner.DependencySearchFindsAny states only that the result comes from one of them.

## Behaviour of the code worth knowing

- `sanitize` joins every emitted piece with a line feed: each header, each member line, and each closing `}` (source_cut.py:30-33). Every piece already ends in a line feed, so a blank line separates every pair of emitted lines.
- `main` returns normally when the target is not found (main.py:236-238).
- A target found in a project file other than the one kept whole is bundled alone. Its text is the skeleton (main.py:116-128), and a skeleton has no `import` line. So `get_referenced_classes` finds nothing (main.py:243), and no class the original file imports is looked up or written. Bundle.SanitizedTargetWrittenAlone states this for parsers that report plain classes, that is, classes whose modifiers and names hold no line feed.
- An exception from a referenced class's lookup is not caught in the loop (main.py:249-253). A syntax error or a failed dependency report aborts the whole run. Bundle.AssembleOutcomes models this as an error result.
