/**
 * `main` of main.py: the target class's text, then the text of every class its
 * import statements name, gathered in an insertion-ordered map and written out as
 * one file with a header line in front of each text.
 *
 * An exception from any lookup ends the run; a target that is found nowhere ends it
 * without output.
 */
module Bundle {
  import opened Wrappers
  import opened PyText
  import opened Imports
  import opened JavaAst
  import opened Sanitizer
  import opened Scanner

  const OutputDir: string := "./source_collection"

  /** A Python dict of class name to text, in insertion order. */
  type SourceMap = seq<(string, string)>

  /** The keys in insertion order. */
  function Keys(m: SourceMap): seq<string>
  {
    if m == [] then [] else [m[0].0] + Keys(m[1..])
  }

  /** A dict never holds a key twice. */
  predicate DistinctKeys(m: SourceMap)
  {
    m == [] || (m[0].0 !in Keys(m[1..]) && DistinctKeys(m[1..]))
  }

  /** `m.get(k)` */
  function Get(m: SourceMap, k: string): Option<string>
  {
    if m == [] then None
    else if m[0].0 == k then Some(m[0].1)
    else Get(m[1..], k)
  }

  /** `m[k] = v`: a new key goes last; an existing key keeps its place. */
  function Insert(m: SourceMap, k: string, v: string): SourceMap
  {
    if m == [] then [(k, v)]
    else if m[0].0 == k then [(k, v)] + m[1..]
    else [m[0]] + Insert(m[1..], k, v)
  }

  /** The key list has one key per entry, in the entries' order. */
  lemma {:induction false} KeysAt(m: SourceMap, i: nat)
    requires i < |m|
    ensures |Keys(m)| == |m| && Keys(m)[i] == m[i].0
  {
    if i > 0 {
      KeysAt(m[1..], i - 1);
    } else if |m| > 1 {
      KeysAt(m[1..], 0);
    }
  }

  /** After `m[k] = v`, `k` maps to `v` and every other key to what it mapped to. */
  lemma {:induction false} InsertGet(m: SourceMap, k: string, v: string, x: string)
    ensures Get(Insert(m, k, v), x) == if x == k then Some(v) else Get(m, x)
  {
    if m != [] && m[0].0 != k {
      InsertGet(m[1..], k, v, x);
    }
  }

  /** Assignment keeps the order of the keys present and appends a new one; the keys
      stay distinct. */
  lemma {:induction false} InsertKeys(m: SourceMap, k: string, v: string)
    requires DistinctKeys(m)
    ensures k in Keys(m) ==> Keys(Insert(m, k, v)) == Keys(m)
    ensures k !in Keys(m) ==> Keys(Insert(m, k, v)) == Keys(m) + [k]
    ensures DistinctKeys(Insert(m, k, v))
  {
    if m != [] && m[0].0 != k {
      var tail := m[1..];
      InsertKeys(tail, k, v);
      assert Insert(m, k, v) == [m[0]] + Insert(tail, k, v);
      assert Insert(m, k, v)[1..] == Insert(tail, k, v);
      if k !in Keys(m) {
        AppendAssociates([m[0].0], Keys(tail), [k]);
      }
    } else if m != [] {
      assert Insert(m, k, v)[1..] == m[1..];
    }
  }

  /** A key maps to a value exactly when it is one of the keys. */
  lemma {:induction false} GetIffKey(m: SourceMap, k: string)
    ensures Get(m, k).Some? <==> k in Keys(m)
  {
    if m != [] {
      GetIffKey(m[1..], k);
    }
  }

  /** Where a key stands in the map. */
  function KeyIndex(m: SourceMap, k: string): (i: nat)
    requires k in Keys(m)
    ensures i < |m| && m[i].0 == k
  {
    if m[0].0 == k then 0 else KeyIndex(m[1..], k) + 1
  }

  /** With distinct keys, the value stored at a position is the one looked up. */
  lemma {:induction false} GetAt(m: SourceMap, i: nat)
    requires DistinctKeys(m) && i < |m|
    ensures Get(m, m[i].0) == Some(m[i].1)
  {
    if i > 0 {
      KeysAt(m[1..], i - 1);
      GetAt(m[1..], i - 1);
    }
  }

  // ---------------------------------------------------------------------------
  // Gathering the texts
  // ---------------------------------------------------------------------------

  /** `scanner.find_source`, as `main` uses it. */
  type Finder = string -> Result<Option<ClassSource>, Failure>

  /** The lookup of a class ended with a record. */
  predicate Located(find: Finder, fqn: string)
  {
    find(fqn).Ok? && find(fqn).value.Some?
  }

  /** The text of a located class. */
  function TextOf(find: Finder, fqn: string): string
    requires Located(find, fqn)
  {
    find(fqn).value.value.content
  }

  /** The loop over the referenced classes: each located class is stored under its
      name; a lookup that raises ends the loop with that exception. */
  function CollectReferences(find: Finder, refs: seq<string>, m: SourceMap): Result<SourceMap, Failure>
  {
    if refs == [] then Ok(m)
    else match find(refs[0])
      case Err(f) => Err(f)
      case Ok(None) => CollectReferences(find, refs[1..], m)
      case Ok(Some(src)) => CollectReferences(find, refs[1..], Insert(m, refs[0], src.content))
  }

  /** The index of the first reference whose lookup raises, if any. */
  function FirstRaise(find: Finder, refs: seq<string>): (r: Option<nat>)
    ensures r.Some? ==> r.value < |refs| && find(refs[r.value]).Err?
  {
    if refs == [] then None
    else if find(refs[0]).Err? then Some(0)
    else match FirstRaise(find, refs[1..])
      case None => None
      case Some(i) => Some(i + 1)
  }

  /** The first raising reference is the first: every earlier lookup returned, and
      when there is none, no lookup raises. */
  lemma {:induction false} FirstRaiseIsFirst(find: Finder, refs: seq<string>)
    ensures FirstRaise(find, refs).None? <==> forall i :: 0 <= i < |refs| ==> find(refs[i]).Ok?
    ensures FirstRaise(find, refs).Some? ==>
      forall j :: 0 <= j < FirstRaise(find, refs).value ==> find(refs[j]).Ok?
  {
    if refs != [] && find(refs[0]).Ok? {
      var rest := refs[1..];
      FirstRaiseIsFirst(find, rest);
      assert forall j :: 1 <= j < |refs| ==> refs[j] == rest[j - 1];
    }
  }

  /** The loop fails exactly when some reference's lookup raises, and then with the
      exception of the first such reference. */
  lemma {:induction false} CollectFailsAtFirstRaise(find: Finder, refs: seq<string>, m: SourceMap)
    ensures CollectReferences(find, refs, m).Err? <==> FirstRaise(find, refs).Some?
    ensures CollectReferences(find, refs, m).Err? ==>
      CollectReferences(find, refs, m).error == find(refs[FirstRaise(find, refs).value]).error
  {
    if refs != [] && find(refs[0]).Ok? {
      var m' := if find(refs[0]).value.Some? then Insert(m, refs[0], find(refs[0]).value.value.content) else m;
      assert CollectReferences(find, refs, m) == CollectReferences(find, refs[1..], m');
      CollectFailsAtFirstRaise(find, refs[1..], m');
    }
  }

  /** What the loop stores: every located reference maps to its text, every other key
      keeps its value, the keys already present stay in front in their order, and the
      keys stay distinct. */
  lemma {:induction false} CollectContents(find: Finder, refs: seq<string>, m: SourceMap, x: string)
    requires DistinctKeys(m)
    requires CollectReferences(find, refs, m).Ok?
    ensures DistinctKeys(CollectReferences(find, refs, m).value)
    ensures Keys(m) <= Keys(CollectReferences(find, refs, m).value)
    ensures Get(CollectReferences(find, refs, m).value, x) ==
      if x in refs && Located(find, x) then Some(TextOf(find, x)) else Get(m, x)
  {
    if refs != [] {
      var rest := refs[1..];
      assert forall y :: y in refs <==> y == refs[0] || y in rest;
      if find(refs[0]).value.None? {
        CollectContents(find, rest, m, x);
      } else {
        var src := find(refs[0]).value.value;
        var m1 := Insert(m, refs[0], src.content);
        InsertKeys(m, refs[0], src.content);
        InsertGet(m, refs[0], src.content, x);
        CollectContents(find, rest, m1, x);
      }
    }
  }

  // ---------------------------------------------------------------------------
  // The run
  // ---------------------------------------------------------------------------

  /** The map `main` builds: `None` when the target is found nowhere. */
  function BuildSourceMap(find: Finder, target: string): Result<Option<SourceMap>, Failure>
  {
    match find(target)
    case Err(f) => Err(f)
    case Ok(None) => Ok(None)
    case Ok(Some(src)) =>
      match CollectReferences(find, ReferencedClasses(src.content), [(target, src.content)])
      case Err(f) => Err(f)
      case Ok(m) => Ok(Some(m))
  }

  /** The target's text comes first; after it, exactly the referenced classes that were
      located, each with its own text, once. A reference equal to the target stores the
      same text under the same key, so the target's entry stays as it was. */
  lemma SourceMapContents(find: Finder, target: string, x: string)
    requires BuildSourceMap(find, target).Ok? && BuildSourceMap(find, target).value.Some?
    ensures Located(find, target)
    ensures DistinctKeys(BuildSourceMap(find, target).value.value)
    ensures |BuildSourceMap(find, target).value.value| >= 1
    ensures BuildSourceMap(find, target).value.value[0] == (target, TextOf(find, target))
    ensures Get(BuildSourceMap(find, target).value.value, x) ==
      if x == target || (x in ReferencedClasses(TextOf(find, target)) && Located(find, x))
      then Some(TextOf(find, x)) else None
  {
    var text := TextOf(find, target);
    var m0 := [(target, text)];
    var refs := ReferencedClasses(text);
    var m := CollectReferences(find, refs, m0).value;
    assert BuildSourceMap(find, target).value.value == m;
    assert Keys(m0) == [target];
    CollectContents(find, refs, m0, x);
    CollectContents(find, refs, m0, target);
    KeysAt(m, 0);
    assert m[0].0 == target;
    assert Get(m, target) == Some(m[0].1);
  }

  /** What the run ends with: nothing, or the file written. */
  datatype Outcome = NotFound | Written(path: string, text: string)

  /** One entry of the output file. */
  function Block(k: string, v: string): string
  {
    "// ==== Source: " + k + " ====\n" + v + "\n\n"
  }

  /** The output file: the entries' blocks in the map's order. */
  function Serialize(m: SourceMap): string
  {
    if m == [] then "" else Block(m[0].0, m[0].1) + Serialize(m[1..])
  }

  /** Every entry's block stands in the file after the blocks of the entries before it. */
  lemma {:induction false} SerializeAt(m: SourceMap, i: nat)
    requires i < |m|
    ensures Serialize(m) == Serialize(m[..i]) + Block(m[i].0, m[i].1) + Serialize(m[i + 1..])
  {
    if i > 0 {
      SerializeAt(m[1..], i - 1);
      assert m[1..][..i - 1] == m[..i][1..];
      assert m[1..][i - 1] == m[i];
      assert m[1..][i..] == m[i + 1..];
      AppendAssociates(Block(m[0].0, m[0].1), Serialize(m[1..][..i - 1]), Block(m[i].0, m[i].1));
      AppendAssociates(Block(m[0].0, m[0].1), Serialize(m[1..][..i - 1]) + Block(m[i].0, m[i].1), Serialize(m[i + 1..]));
    } else {
      assert m[..0] == [];
      assert m[1..] == m[i + 1..];
    }
  }

  /** The output file name: the class name with dots turned to underscores. */
  function OutputPath(target: string): string
  {
    PathJoin(OutputDir, Replace(target, ".", "_") + "_sources.java")
  }

  /** The rest of `main` once the lookups are done. */
  function Assemble(find: Finder, target: string): Result<Outcome, Failure>
  {
    match BuildSourceMap(find, target)
    case Err(f) => Err(f)
    case Ok(None) => Ok(NotFound)
    case Ok(Some(m)) => Ok(Written(OutputPath(target), Serialize(m)))
  }

  /** `main(target_class, project_root)` over the scanner of an environment. */
  function Run(env: Environment, target: string): Result<Outcome, Failure>
  {
    Assemble((fqn: string) => FindSource(env, fqn), target)
  }

  /** The run writes nothing exactly when the target's lookup finds nothing, and fails
      exactly when the target's lookup or one of its references' lookups raises, with
      the first exception raised. */
  lemma AssembleOutcomes(find: Finder, target: string)
    ensures Assemble(find, target) == Ok(NotFound) <==> find(target) == Ok(None)
    ensures Assemble(find, target).Err? <==>
      find(target).Err? || (Located(find, target) && FirstRaise(find, ReferencedClasses(TextOf(find, target))).Some?)
    ensures Assemble(find, target).Err? && Located(find, target) ==>
      var refs := ReferencedClasses(TextOf(find, target));
      Assemble(find, target).error == find(refs[FirstRaise(find, refs).value]).error
  {
    if Located(find, target) {
      var text := TextOf(find, target);
      CollectFailsAtFirstRaise(find, ReferencedClasses(text), [(target, text)]);
    }
  }

  /** A written file goes to the target's output path, opens with the target's block,
      and holds the block of every referenced class that was located. */
  lemma WrittenFileBlocks(find: Finder, target: string, x: string)
    requires Assemble(find, target).Ok? && Assemble(find, target).value.Written?
    requires Located(find, target) && x in ReferencedClasses(TextOf(find, target)) && Located(find, x)
    ensures Assemble(find, target).value.path == OutputPath(target)
    ensures StartsWith(Assemble(find, target).value.text, Block(target, TextOf(find, target)))
    ensures exists pre, post :: Assemble(find, target).value.text == pre + Block(x, TextOf(find, x)) + post
  {
    var m := BuildSourceMap(find, target).value.value;
    var text := Serialize(m);
    assert Assemble(find, target).value.text == text;
    SourceMapContents(find, target, x);
    var head := Block(target, TextOf(find, target));
    assert text == head + Serialize(m[1..]);
    assert text[..|head|] == head;
    GetIffKey(m, x);
    var i := KeyIndex(m, x);
    GetAt(m, i);
    SerializeAt(m, i);
  }

  /** Over the scanner: nothing is written exactly when the target is found nowhere. */
  lemma RunNotFound(env: Environment, target: string)
    ensures Run(env, target) == Ok(NotFound) <==> FindSource(env, target) == Ok(None)
  {
    AssembleOutcomes((fqn: string) => FindSource(env, fqn), target);
  }

  // ---------------------------------------------------------------------------
  // The output file's name
  // ---------------------------------------------------------------------------

  /** For a class name that does not start with `/`, the file lies in the output
      directory. */
  lemma OutputPathInDirectory(target: string)
    requires target == [] || target[0] != '/'
    ensures OutputPath(target) == OutputDir + "/" + Replace(target, ".", "_") + "_sources.java"
  {
    var r := Replace(target, ".", "_");
    var name := r + "_sources.java";
    if r != [] {
      ReplaceFirstChar(target, ".", "_");
      assert name[0] == r[0];
    } else {
      assert name[0] == '_';
    }
    assert name[..1] != "/" by {
      assert name[..1][0] == name[0];
    }
    assert OutputDir[|OutputDir| - 1] == 'n';
    assert PathJoin(OutputDir, name) == OutputDir + "/" + name;
    AppendAssociates(OutputDir + "/", r, "_sources.java");
  }

  /** Distinct class names without underscores get distinct files. */
  lemma OutputPathInjective(t1: string, t2: string)
    requires '_' !in t1 && '_' !in t2
    requires (t1 == [] || t1[0] != '/') && (t2 == [] || t2[0] != '/')
    requires OutputPath(t1) == OutputPath(t2)
    ensures t1 == t2
  {
    OutputPathInDirectory(t1);
    OutputPathInDirectory(t2);
    var r1, r2 := Replace(t1, ".", "_"), Replace(t2, ".", "_");
    var n := |OutputDir| + 1;
    assert OutputPath(t1)[n..] == r1 + "_sources.java";
    assert OutputPath(t2)[n..] == r2 + "_sources.java";
    assert |r1| == |r2|;
    assert r1 == (r1 + "_sources.java")[..|r1|] == (r2 + "_sources.java")[..|r2|] == r2;
    ReplaceCharRoundTrip(t1, '.', '_');
    ReplaceCharRoundTrip(t2, '.', '_');
  }

  /** With an underscore allowed, two classes can share one output file. */
  lemma OutputPathCollision()
    ensures OutputPath("a.B") == OutputPath("a_B")
  {
    ReplaceCharPointwise("a.B", '.', '_');
    ReplaceCharPointwise("a_B", '.', '_');
    assert Replace("a.B", ".", "_") == "a_B";
    assert Replace("a_B", ".", "_") == "a_B";
  }

  // ---------------------------------------------------------------------------
  // A sanitized target
  // ---------------------------------------------------------------------------

  /** A class whose skeleton lines are single lines: a header without a line feed
      that does not begin with `import`, and kept members' lines with no line feed
      before their last character. A class the Java grammar accepts has this shape,
      since its modifiers, names and types hold no line feed and its header begins
      with a modifier keyword or with `class`. */
  predicate PlainClass(c: ClassDecl)
  {
    && '\n' !in ClassHeader(c) && !StartsWith(ClassHeader(c), "import")
    && forall i, j :: 0 <= i < |MemberLines(RetainedMembers(c.body), c.name)|
         && 0 <= j < |MemberLines(RetainedMembers(c.body), c.name)[i]| - 1
         ==> MemberLines(RetainedMembers(c.body), c.name)[i][j] != '\n'
  }

  /** Every member line is indented and ends with a line feed. */
  lemma {:induction false} MemberLinesFrame(ms: seq<Member>, className: string)
    requires forall i :: 0 <= i < |ms| ==> Retained(ms[i])
    ensures forall i :: 0 <= i < |MemberLines(ms, className)| ==>
      |MemberLines(ms, className)[i]| > 1 && MemberLines(ms, className)[i][0] == ' '
      && MemberLines(ms, className)[i][|MemberLines(ms, className)[i]| - 1] == '\n'
    decreases |ms|
  {
    if ms != [] {
      MemberLinesFrame(ms[1..], className);
      MemberLineFrame(ms[0], className);
    }
  }

  /** One member line is indented and ends with a line feed. */
  lemma MemberLineFrame(m: Member, className: string)
    requires Retained(m)
    ensures |MemberLine(m, className)| > 1 && MemberLine(m, className)[0] == ' '
    ensures MemberLine(m, className)[|MemberLine(m, className)| - 1] == '\n'
  {
    if m.Field? {
      var rest := Join(NonAnnotations(m.modifiers), " ") + " " + RenderType(m.fieldType) + " " + m.declarators[0];
      assert FieldLine(m) == Indent + rest + ";\n";
    } else {
      assert MethodLine(m, className) == Indent + MethodSignature(m, className) + " {}\n";
    }
  }

  /** The lines of a plain class's block are single lines. */
  lemma ClassBlockLines(c: ClassDecl)
    requires PlainClass(c)
    ensures forall i :: 0 <= i < |ClassBlock(c)| ==> OneLine(ClassBlock(c)[i])
  {
    var ls := MemberLines(RetainedMembers(c.body), c.name);
    HeaderLine(ClassHeader(c));
    MemberLinesFrame(RetainedMembers(c.body), c.name);
    forall i | 0 <= i < |ls|
      ensures OneLine(ls[i])
    {
      IndentedLine(ls[i]);
    }
    assert OneLine("}\n");
  }

  /** A header without a line feed or a leading `import` gives a single line. */
  lemma HeaderLine(h: string)
    requires '\n' !in h && !StartsWith(h, "import")
    ensures OneLine(h + " {\n")
  {
    var first := h + " {\n";
    assert first[..|first| - 1] == h + " {";
    if |h| >= 6 {
      assert first[..6] == h[..6];
    } else {
      assert first[|h|] == ' ';
    }
  }

  /** An indented text with a line feed at its end only is a single line. */
  lemma IndentedLine(l: string)
    requires |l| > 1 && l[0] == ' ' && l[|l| - 1] == '\n'
    requires forall j :: 0 <= j < |l| - 1 ==> l[j] != '\n'
    ensures OneLine(l)
  {
    assert forall j :: 0 <= j < |l| - 1 ==> l[..|l| - 1][j] == l[j];
  }

  /** The lines of the blocks of plain classes are single lines. */
  lemma {:induction false} ClassBlocksLines(cs: seq<ClassDecl>)
    requires forall k :: 0 <= k < |cs| ==> PlainClass(cs[k])
    ensures forall i :: 0 <= i < |ClassBlocks(cs)| ==> OneLine(ClassBlocks(cs)[i])
    decreases |cs|
  {
    if cs != [] {
      ClassBlocksFront(cs);
      ClassBlockLines(cs[0]);
      ClassBlocksLines(cs[1..]);
    } else {
      assert ClassBlocks(cs) == [];
    }
  }

  /** The skeleton of plain classes has no import statement, so it references no
      class. */
  lemma SkeletonReferencesNothing(u: CompilationUnit)
    requires forall k :: 0 <= k < |VisitUnit(u)| ==> PlainClass(VisitUnit(u)[k])
    ensures ReferencedClasses(SanitizeUnit(u)) == []
  {
    UnitPiecesAreClassBlocks(VisitUnit(u));
    ClassBlocksLines(VisitUnit(u));
    JoinedLinesNoImportLine(ClassBlocks(VisitUnit(u)));
    NoImportLineNoReferences(SanitizeUnit(u));
  }

  /** A target whose text references no class is written alone. */
  lemma UnreferencingTargetWrittenAlone(find: Finder, target: string)
    requires Located(find, target) && ReferencedClasses(TextOf(find, target)) == []
    ensures Assemble(find, target) == Ok(Written(OutputPath(target), Block(target, TextOf(find, target))))
  {
    var m := [(target, TextOf(find, target))];
    assert CollectReferences(find, [], m) == Ok(m);
    assert BuildSourceMap(find, target) == Ok(Some(m));
    assert m[1..] == [];
    assert Serialize(m) == Block(target, TextOf(find, target));
  }

  /** A target found in a project file that is sanitized is written alone: its
      skeleton has no import statement, so none of the classes the file imports is
      looked up. This holds whenever the parser yields plain classes only. */
  lemma SanitizedTargetWrittenAlone(env: Environment, target: string)
    requires forall t :: env.parse(t).Parsed? ==>
      forall k :: 0 <= k < |VisitUnit(env.parse(t).unit)| ==> PlainClass(VisitUnit(env.parse(t).unit)[k])
    requires FindSource(env, target).Ok? && FindSource(env, target).value.Some?
    requires FindSource(env, target).value.value.origin == Project
    requires !Contains(FindSource(env, target).value.value.path, KeptWhole)
    ensures Run(env, target) == Ok(Written(OutputPath(target), Block(target, FindSource(env, target).value.value.content)))
  {
    var src := FindSource(env, target).value.value;
    FoundTextIsFileOrDecompiled(env, target);
    SkeletonReferencesNothing(env.parse(env.files[src.path]).unit);
    var find := (fqn: string) => FindSource(env, fqn);
    assert find(target) == FindSource(env, target);
    UnreferencingTargetWrittenAlone(find, target);
  }
}
