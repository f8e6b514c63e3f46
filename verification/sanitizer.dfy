/**
 * The signature-skeleton renderer (`JavaCodeSanitizer`): every class declaration
 * the tree walk reaches is re-emitted as a header line, one line per non-private
 * field (first declarator only) and per non-private method (empty body), and a
 * closing brace. Every emitted line is collected into one list, and the list is
 * joined with "\n".
 */
module Sanitizer {
  import opened Wrappers
  import opened PyText
  import opened JavaAst

  /** The indentation of every member line: four spaces. */
  const Indent: string := "    "

  // ---------------------------------------------------------------------------
  // Type rendering
  // ---------------------------------------------------------------------------

  /** The text of a type: wildcards first, then type arguments (array dimensions
      are then ignored), then array dimensions, then the bare name. A node without
      a name renders as the empty string. */
  function RenderType(t: JType): string
    decreases t
  {
    match t
    case Nameless => ""
    case Named(n) => n
    case Ref(n, args, d) =>
      if n == "?" then
        if |args| > 0 && args[0].upperBound.Some? then
          "? extends " + RenderType(args[0].upperBound.value)
        else if |args| > 0 && args[0].lowerBound.Some? then
          "? super " + RenderType(args[0].lowerBound.value)
        else "?"
      else if |args| > 0 then
        n + "<" + Join(seq(|args|, i requires 0 <= i < |args| => RenderType(args[i].argType)), ", ") + ">"
      else if d > 0 then n + Repeat("[]", d)
      else n
  }

  /** The texts of a list of types, in order. */
  function RenderTypes(ts: seq<JType>): (r: seq<string>)
    ensures |r| == |ts| && forall i :: 0 <= i < |ts| ==> r[i] == RenderType(ts[i])
  {
    seq(|ts|, i requires 0 <= i < |ts| => RenderType(ts[i]))
  }

  // ---------------------------------------------------------------------------
  // Modifiers
  // ---------------------------------------------------------------------------

  /** An annotation written among the modifiers. */
  predicate IsAnnotation(m: string)
  {
    StartsWith(m, "@")
  }

  /** The modifiers that are not annotations, in their original order. */
  function NonAnnotations(mods: seq<string>): (r: seq<string>)
    ensures forall m :: m in r <==> m in mods && !IsAnnotation(m)
  {
    if mods == [] then []
    else if IsAnnotation(mods[0]) then NonAnnotations(mods[1..])
    else [mods[0]] + NonAnnotations(mods[1..])
  }

  /** `private` appears among the modifiers. */
  predicate IsPrivate(mods: seq<string>)
  {
    "private" in mods
  }

  // ---------------------------------------------------------------------------
  // Fields and methods
  // ---------------------------------------------------------------------------

  /** The line emitted for a field: its non-annotation modifiers, its type and its
      first declared name only. */
  function FieldLine(f: Member): string
    requires f.Field?
  {
    Indent + Join(NonAnnotations(f.modifiers), " ") + " " + RenderType(f.fieldType)
    + " " + f.declarators[0] + ";\n"
  }

  /** A parameter: modifiers (annotations kept), type, name, surrounding whitespace
      stripped; a varargs parameter shows "..." wherever its type showed "[]". */
  function ParameterText(p: Parameter): string
  {
    var rendered := RenderType(p.paramType);
    var shown := if p.varargs then Replace(rendered, "[]", "...") else rendered;
    Strip(Join(p.modifiers, " ") + " " + shown + " " + p.name)
  }

  /** The return-type component of a non-constructor: `void` when the type renders empty. */
  function ReturnText(t: JType): (r: string)
    ensures r != []
  {
    var rendered := RenderType(t);
    if rendered == [] then "void" else rendered
  }

  /** The components of a method signature: non-annotation modifiers, `<T, U>` when
      the method has type parameters, the return type unless the method is named
      like its class, the name, the parenthesised parameters, and a `throws` clause
      when it throws anything. */
  function MethodComponents(m: Member, className: string): seq<string>
    requires m.Method?
  {
    var typeParams := if |m.typeParameters| > 0 then ["<" + Join(m.typeParameters, ", ") + ">"] else [];
    var returnPart := if m.name == className then [] else [ReturnText(m.returnType)];
    var params := seq(|m.parameters|, i requires 0 <= i < |m.parameters| => ParameterText(m.parameters[i]));
    var throwsPart := if |m.throws| > 0 then ["throws " + Join(RenderTypes(m.throws), ", ")] else [];
    NonAnnotations(m.modifiers) + typeParams + returnPart + [m.name, "(" + Join(params, ", ") + ")"] + throwsPart
  }

  /** A method signature: its components joined by single spaces. */
  function MethodSignature(m: Member, className: string): string
    requires m.Method?
  {
    Join(MethodComponents(m, className), " ")
  }

  /** The line emitted for a method: its signature and an empty body. */
  function MethodLine(m: Member, className: string): string
    requires m.Method?
  {
    Indent + MethodSignature(m, className) + " {}\n"
  }

  /** What one member of a class body contributes: nothing for a private field or
      method and for any other kind of member, otherwise its line. */
  function MemberPieces(m: Member, className: string): seq<string>
  {
    match m
    case Field(mods, _, _, _) => if IsPrivate(mods) then [] else [FieldLine(m)]
    case Method(mods, _, _, _, _, _, _) => if IsPrivate(mods) then [] else [MethodLine(m, className)]
    case Other(_) => []
  }

  /** What a class body contributes, member by member in body order. */
  function BodyPieces(body: seq<Member>, className: string): seq<string>
  {
    if body == [] then []
    else MemberPieces(body[0], className) + BodyPieces(body[1..], className)
  }

  // ---------------------------------------------------------------------------
  // Classes
  // ---------------------------------------------------------------------------

  /** Python's `filter(None, parts)` on strings: the non-empty ones, in order. */
  function NonEmptyParts(parts: seq<string>): (r: seq<string>)
    ensures forall p :: p in r <==> p in parts && p != []
  {
    if parts == [] then []
    else if parts[0] == [] then NonEmptyParts(parts[1..])
    else [parts[0]] + NonEmptyParts(parts[1..])
  }

  /** A class header: the non-empty parts among the non-annotation modifiers,
      `class Name<T, U>`, `extends X` and `implements A, B`, joined by spaces. */
  function ClassHeader(c: ClassDecl): string
  {
    var typeParams := if |c.typeParameters| > 0 then "<" + Join(c.typeParameters, ", ") + ">" else "";
    var extendsClause := if c.superclass.Some? then "extends " + RenderType(c.superclass.value) else "";
    var implementsClause := if |c.implements| > 0 then "implements " + Join(RenderTypes(c.implements), ", ") else "";
    Join(NonEmptyParts([Join(NonAnnotations(c.modifiers), " "), "class " + c.name + typeParams,
                        extendsClause, implementsClause]), " ")
  }

  /** The pieces emitted for one class declaration: its opening line, its retained
      member lines, and the closing brace. */
  function ClassPieces(c: ClassDecl): seq<string>
  {
    [ClassHeader(c) + " {\n"] + BodyPieces(c.body, c.name) + ["}\n"]
  }

  // ---------------------------------------------------------------------------
  // The tree walk and the whole source file
  // ---------------------------------------------------------------------------

  /** Concatenation of a list of lists. */
  function Flatten<T>(xs: seq<seq<T>>): seq<T>
  {
    if xs == [] then [] else xs[0] + Flatten(xs[1..])
  }

  /** An element of one of the lists is an element of their concatenation. */
  lemma {:induction false} FlattenContains<T>(xs: seq<seq<T>>, k: nat, x: T)
    requires k < |xs| && x in xs[k]
    ensures x in Flatten(xs)
    decreases k
  {
    if k > 0 {
      FlattenContains(xs[1..], k - 1, x);
    }
  }

  /** A class declared inside any member of a class, be it a local class in a
      method's body, a class inside an anonymous class in a field's initializer, or
      a nested class, is reached by the walk, whatever that member's modifiers. */
  lemma InnerClassesVisited(c: ClassDecl, k: nat, j: nat)
    requires k < |c.body| && j < |c.body[k].classes|
    ensures c.body[k].classes[j] in VisitClass(c)
  {
    var m := c.body[k];
    var inner := seq(|m.classes|, i requires 0 <= i < |m.classes| => VisitClass(m.classes[i]));
    assert m.classes[j] in inner[j];
    FlattenContains(inner, j, m.classes[j]);
    assert VisitMember(m) == Flatten(inner);
    var members := seq(|c.body|, i requires 0 <= i < |c.body| => VisitMember(c.body[i]));
    assert members[k] == VisitMember(m);
    FlattenContains(members, k, m.classes[j]);
  }

  /** The class declarations reached from a class, in walk order: the class itself,
      then those inside its members, member by member. */
  function VisitClass(c: ClassDecl): seq<ClassDecl>
    decreases c
  {
    [c] + Flatten(seq(|c.body|, i requires 0 <= i < |c.body| => VisitMember(c.body[i])))
  }

  /** The class declarations reached inside one member, whatever its kind: the walk
      does not stop at fields and methods, nor at private members. */
  function VisitMember(m: Member): seq<ClassDecl>
    decreases m
  {
    Flatten(seq(|m.classes|, i requires 0 <= i < |m.classes| => VisitClass(m.classes[i])))
  }

  /** The class declarations of a source file, in walk order. */
  function VisitUnit(u: CompilationUnit): seq<ClassDecl>
  {
    Flatten(seq(|u.classes|, i requires 0 <= i < |u.classes| => VisitClass(u.classes[i])))
  }

  /** Every piece emitted for a sequence of class declarations, in order. */
  function UnitPieces(cs: seq<ClassDecl>): seq<string>
  {
    if cs == [] then [] else ClassPieces(cs[0]) + UnitPieces(cs[1..])
  }

  /** The lines of one class as the skeleton shows it: the header with an opening
      brace, one line per kept member in body order, and the closing brace. */
  function ClassBlock(c: ClassDecl): (r: seq<string>)
    ensures |r| == |RetainedMembers(c.body)| + 2
  {
    [ClassHeader(c) + " {\n"] + MemberLines(RetainedMembers(c.body), c.name) + ["}\n"]
  }

  /** The blocks of a sequence of classes, laid end to end. */
  function ClassBlocks(cs: seq<ClassDecl>): seq<string>
  {
    Flatten(seq(|cs|, i requires 0 <= i < |cs| => ClassBlock(cs[i])))
  }

  /** The pieces emitted for the visited classes are their blocks, one block per
      class, in visit order. */
  lemma {:induction false} UnitPiecesAreClassBlocks(cs: seq<ClassDecl>)
    ensures UnitPieces(cs) == ClassBlocks(cs)
    decreases |cs|
  {
    if cs != [] {
      UnitPiecesAreClassBlocks(cs[1..]);
      BodyPiecesAreRetainedLines(cs[0].body, cs[0].name);
      ClassBlocksFront(cs);
    }
  }

  /** The blocks of a non-empty sequence of classes: the first class's, then the rest's. */
  lemma ClassBlocksFront(cs: seq<ClassDecl>)
    requires cs != []
    ensures ClassBlocks(cs) == ClassBlock(cs[0]) + ClassBlocks(cs[1..])
  {
    var blocks := seq(|cs|, i requires 0 <= i < |cs| => ClassBlock(cs[i]));
    assert blocks[1..] == seq(|cs[1..]|, i requires 0 <= i < |cs[1..]| => ClassBlock(cs[1..][i]));
  }

  /** A file in which the walk reaches one class shows that class's block alone; the
      block has two lines more than the class has non-private fields and methods. */
  lemma OneClassSkeleton(u: CompilationUnit, c: ClassDecl)
    requires VisitUnit(u) == [c]
    ensures Sanitize(Parsed(u)) == Ok(Join(ClassBlock(c), "\n"))
    ensures |UnitPieces(VisitUnit(u))| == |c.body| - PrivateCount(c.body) - OtherCount(c.body) + 2
  {
    UnitPiecesAreClassBlocks([c]);
    ClassBlocksFront([c]);
    assert [c][1..] == [];
    assert ClassBlocks([c]) == ClassBlock(c);
    BodyPiecesAreRetainedLines(c.body, c.name);
  }

  /** The skeleton of a parsed source file: all pieces of all visited classes
      joined with "\n". */
  function SanitizeUnit(u: CompilationUnit): string
  {
    Join(UnitPieces(VisitUnit(u)), "\n")
  }

  /** The exception raised when the source does not parse, carrying the parser's
      location and message. */
  datatype SanitizeError = JavaSyntaxError(at: string, message: string)

  /** `sanitize`: the skeleton of a source file, or the syntax error its parse raised. */
  function Sanitize(parsed: ParseOutcome): (r: Result<string, SanitizeError>)
    ensures r.Err? <==> parsed.SyntaxError?
    ensures parsed.SyntaxError? ==> r.error.at == parsed.at && r.error.message == parsed.message
    ensures parsed.Parsed? ==> r.value == Join(ClassBlocks(VisitUnit(parsed.unit)), "\n")
  {
    match parsed
    case SyntaxError(at, message) => Err(JavaSyntaxError(at, message))
    case Parsed(u) =>
      UnitPiecesAreClassBlocks(VisitUnit(u));
      Ok(SanitizeUnit(u))
  }

  // ---------------------------------------------------------------------------
  // Which members survive
  // ---------------------------------------------------------------------------

  /** A member the skeleton keeps: a field or a method without `private`. */
  predicate Retained(m: Member)
  {
    (m.Field? || m.Method?) && !IsPrivate(m.modifiers)
  }

  /** The members the skeleton keeps, in body order. */
  function RetainedMembers(body: seq<Member>): (r: seq<Member>)
    ensures forall i :: 0 <= i < |r| ==> Retained(r[i])
  {
    if body == [] then []
    else if Retained(body[0]) then [body[0]] + RetainedMembers(body[1..])
    else RetainedMembers(body[1..])
  }

  /** The line of a kept member. */
  function MemberLine(m: Member, className: string): string
    requires Retained(m)
  {
    if m.Field? then FieldLine(m) else MethodLine(m, className)
  }

  /** The lines of a sequence of kept members, in order. */
  function MemberLines(ms: seq<Member>, className: string): (r: seq<string>)
    requires forall i :: 0 <= i < |ms| ==> Retained(ms[i])
    ensures |r| == |ms|
  {
    if ms == [] then [] else [MemberLine(ms[0], className)] + MemberLines(ms[1..], className)
  }

  /** Private fields and methods of a body. */
  function PrivateCount(body: seq<Member>): nat
  {
    if body == [] then 0
    else (if (body[0].Field? || body[0].Method?) && IsPrivate(body[0].modifiers) then 1 else 0)
         + PrivateCount(body[1..])
  }

  /** Members that are neither fields nor methods. */
  function OtherCount(body: seq<Member>): nat
  {
    if body == [] then 0 else (if body[0].Other? then 1 else 0) + OtherCount(body[1..])
  }

  /** One member contributes its line when kept and nothing otherwise. */
  lemma MemberPiecesOfRetained(m: Member, className: string)
    ensures Retained(m) ==> MemberPieces(m, className) == [MemberLine(m, className)]
    ensures !Retained(m) ==> MemberPieces(m, className) == []
  {
  }

  /** The member lines of a class are exactly the lines of its non-private fields
      and methods, in body order; their number is the body size less the private
      fields and methods and the other members. */
  lemma {:induction false} BodyPiecesAreRetainedLines(body: seq<Member>, className: string)
    ensures BodyPieces(body, className) == MemberLines(RetainedMembers(body), className)
    ensures |BodyPieces(body, className)| == |body| - PrivateCount(body) - OtherCount(body)
  {
    if body != [] {
      var m, rest := body[0], body[1..];
      BodyPiecesAreRetainedLines(rest, className);
      MemberPiecesOfRetained(m, className);
      assert BodyPieces(body, className) == MemberPieces(m, className) + BodyPieces(rest, className);
      if Retained(m) {
        assert RetainedMembers(body) == [m] + RetainedMembers(rest);
        assert ([m] + RetainedMembers(rest))[1..] == RetainedMembers(rest);
      } else {
        assert RetainedMembers(body) == RetainedMembers(rest);
      }
    }
  }

  /** The member lines of two bodies laid end to end. */
  lemma {:induction false} BodyPiecesAppend(a: seq<Member>, b: seq<Member>, className: string)
    ensures BodyPieces(a + b, className) == BodyPieces(a, className) + BodyPieces(b, className)
    decreases |a|
  {
    if a != [] {
      BodyPiecesFront(a, b, className);
      BodyPiecesAppend(a[1..], b, className);
      AppendAssociates(MemberPieces(a[0], className), BodyPieces(a[1..], className), BodyPieces(b, className));
    } else {
      assert a + b == b;
    }
  }

  /** The pieces of a body with a first member: that member's pieces, then the rest's. */
  lemma BodyPiecesFront(a: seq<Member>, b: seq<Member>, className: string)
    requires a != []
    ensures BodyPieces(a, className) == MemberPieces(a[0], className) + BodyPieces(a[1..], className)
    ensures BodyPieces(a + b, className) == MemberPieces(a[0], className) + BodyPieces(a[1..] + b, className)
  {
    assert (a + b)[0] == a[0];
    assert (a + b)[1..] == a[1..] + b;
  }

  /** A private field or method, or any other kind of member, leaves no trace: the
      member lines are those of the body without it. */
  lemma DroppedMemberLeavesNoTrace(before: seq<Member>, m: Member, after: seq<Member>, className: string)
    requires !Retained(m)
    ensures BodyPieces(before + [m] + after, className) == BodyPieces(before + after, className)
  {
    assert before + [m] + after == before + ([m] + after);
    BodyPiecesAppend(before, [m] + after, className);
    DroppedMemberAtFront(m, after, className);
    BodyPiecesAppend(before, after, className);
  }

  /** A member that is not kept contributes nothing in front of the rest. */
  lemma DroppedMemberAtFront(m: Member, after: seq<Member>, className: string)
    requires !Retained(m)
    ensures BodyPieces([m] + after, className) == BodyPieces(after, className)
  {
    var body := [m] + after;
    assert body[0] == m && body[1..] == after;
    assert MemberPieces(m, className) == [];
  }

  // ---------------------------------------------------------------------------
  // Annotations among modifiers
  // ---------------------------------------------------------------------------

  /** Dropping annotations commutes with concatenation. */
  lemma {:induction false} NonAnnotationsAppend(a: seq<string>, b: seq<string>)
    ensures NonAnnotations(a + b) == NonAnnotations(a) + NonAnnotations(b)
    decreases |a|
  {
    if a != [] {
      assert (a + b)[1..] == a[1..] + b;
      NonAnnotationsAppend(a[1..], b);
    } else {
      assert a + b == b;
    }
  }

  /** An annotation anywhere among the modifiers is dropped. */
  lemma AnnotationDropped(a: seq<string>, x: string, b: seq<string>)
    requires IsAnnotation(x)
    ensures NonAnnotations(a + [x] + b) == NonAnnotations(a + b)
  {
    NonAnnotationsAppend(a + [x], b);
    NonAnnotationsAppend(a, [x]);
    NonAnnotationsAppend(a, b);
  }

  /** An annotation among a field's or method's modifiers does not change what the
      member contributes. */
  lemma AnnotationLeavesMemberUnchanged(m: Member, a: seq<string>, x: string, b: seq<string>, className: string)
    requires (m.Field? || m.Method?) && m.modifiers == a + [x] + b && IsAnnotation(x)
    ensures MemberPieces(m, className) == MemberPieces(m.(modifiers := a + b), className)
  {
    AnnotationDropped(a, x, b);
    assert x[..1] == "@";
    assert x[0] != "private"[0];
    assert x != "private";
    assert IsPrivate(a + [x] + b) == IsPrivate(a + b);
  }

  /** An annotation among a class's modifiers does not change its header. */
  lemma AnnotationLeavesHeaderUnchanged(c: ClassDecl, a: seq<string>, x: string, b: seq<string>)
    requires c.modifiers == a + [x] + b && IsAnnotation(x)
    ensures ClassHeader(c) == ClassHeader(c.(modifiers := a + b))
  {
    AnnotationDropped(a, x, b);
  }

  /** Parameter modifiers are copied as they are, annotations included: only the
      whitespace at the two ends of the assembled text is stripped. */
  lemma ParameterKeepsEveryModifier(p: Parameter)
    requires p.modifiers != [] && p.modifiers[0] != [] && !IsSpace(p.modifiers[0][0])
    requires p.name != [] && !IsSpace(p.name[|p.name| - 1])
    ensures var shown := if p.varargs then Replace(RenderType(p.paramType), "[]", "...") else RenderType(p.paramType);
            ParameterText(p) == Join(p.modifiers, " ") + " " + shown + " " + p.name
  {
    var shown := if p.varargs then Replace(RenderType(p.paramType), "[]", "...") else RenderType(p.paramType);
    var mods := Join(p.modifiers, " ");
    var text := mods + " " + shown + " " + p.name;
    if |p.modifiers| > 1 {
      assert mods == p.modifiers[0] + " " + Join(p.modifiers[1..], " ");
    }
    assert mods[0] == p.modifiers[0][0];
    assert text[0] == mods[0];
    assert text[|text| - 1] == p.name[|p.name| - 1];
    StripUnchanged(text);
  }

  // ---------------------------------------------------------------------------
  // Fields and methods
  // ---------------------------------------------------------------------------

  /** Only the first declared variable of a field appears: the names after it do not
      change the field's line. */
  lemma FieldShowsFirstDeclaratorOnly(f: Member, others: seq<string>)
    requires f.Field?
    ensures FieldLine(f) == FieldLine(f.(declarators := [f.declarators[0]] + others))
  {
  }

  /** A method named like its class is a constructor: whatever its return type, the
      signature is the same. */
  lemma ConstructorIgnoresReturnType(m: Member, t: JType)
    requires m.Method?
    ensures MethodSignature(m, m.name) == MethodSignature(m.(returnType := t), m.name)
  {
  }

  /** Any other method whose return type renders empty shows `void`. */
  lemma EmptyReturnTypeShowsVoid(m: Member, className: string)
    requires m.Method? && m.name != className && RenderType(m.returnType) == []
    ensures MethodSignature(m, className) == MethodSignature(m.(returnType := Named("void")), className)
  {
  }

  /** The characters a rendered type can hold. */
  predicate IsTypeTextChar(c: char)
  {
    IsNameChar(c) || c == '<' || c == '>' || c == '[' || c == ']' || c == ',' || c == ' ' || c == '?'
  }

  /** A well-named type renders to name characters, brackets, commas, spaces and `?`. */
  lemma {:induction false} RenderTypeChars(t: JType)
    requires WellNamed(t)
    ensures forall i :: 0 <= i < |RenderType(t)| ==> IsTypeTextChar(RenderType(t)[i])
    decreases t
  {
    match t
    case Nameless =>
    case Named(n) =>
    case Ref(n, args, d) =>
      if n == "?" {
        if |args| > 0 && args[0].upperBound.Some? {
          assert WellNamedArgument(args[0]);
          RenderTypeChars(args[0].upperBound.value);
        } else if |args| > 0 && args[0].lowerBound.Some? {
          assert WellNamedArgument(args[0]);
          RenderTypeChars(args[0].lowerBound.value);
        }
      } else if |args| > 0 {
        var parts := seq(|args|, i requires 0 <= i < |args| => RenderType(args[i].argType));
        forall k | 0 <= k < |args|
          ensures forall i :: 0 <= i < |parts[k]| ==> IsTypeTextChar(parts[k][i])
        {
          assert WellNamedArgument(args[k]);
          RenderTypeChars(args[k].argType);
        }
        JoinChars(parts, ", ", IsTypeTextChar);
      } else if d > 0 {
        RepeatChars("[]", d);
      }
  }

  /** Every character of a repeated text comes from the repeated text. */
  lemma {:induction false} RepeatChars(s: string, n: nat)
    ensures forall i :: 0 <= i < |Repeat(s, n)| ==> Repeat(s, n)[i] in s
  {
    if n > 0 {
      RepeatChars(s, n - 1);
    }
  }

  /** A `throws` clause appears exactly when the method throws something: with
      well-named exception types, the signature ends with the closing parenthesis
      of its parameter list if and only if the throws list is empty, and otherwise
      ends with `throws` and the exception types, in order. */
  lemma ThrowsClauseIffThrows(m: Member, className: string)
    requires m.Method? && forall i :: 0 <= i < |m.throws| ==> WellNamed(m.throws[i])
    ensures EndsWith(MethodSignature(m, className), ")") <==> |m.throws| == 0
    ensures |m.throws| > 0 ==> EndsWith(MethodSignature(m, className), "throws " + Join(RenderTypes(m.throws), ", "))
  {
    var parts := MethodComponents(m, className);
    JoinEndsWithLast(parts, " ");
    var last := parts[|parts| - 1];
    LastComponentEndsWithParenIffNoThrows(m, className);
    EndsWithSameLastChar(MethodSignature(m, className), last);
    if |m.throws| > 0 {
      LastComponentIsThrowsClause(m, className);
    }
  }

  /** The last component of a throwing method's signature is its `throws` clause. */
  lemma LastComponentIsThrowsClause(m: Member, className: string)
    requires m.Method? && |m.throws| > 0
    ensures var parts := MethodComponents(m, className);
            parts[|parts| - 1] == "throws " + Join(RenderTypes(m.throws), ", ")
  {
  }

  /** The last component of a signature ends with ")" exactly when nothing is thrown. */
  lemma LastComponentEndsWithParenIffNoThrows(m: Member, className: string)
    requires m.Method? && forall i :: 0 <= i < |m.throws| ==> WellNamed(m.throws[i])
    ensures var parts := MethodComponents(m, className);
            var last := parts[|parts| - 1];
            last != [] && (last[|last| - 1] == ')' <==> |m.throws| == 0)
  {
    var parts := MethodComponents(m, className);
    var last := parts[|parts| - 1];
    if |m.throws| > 0 {
      var rendered := RenderTypes(m.throws);
      forall k | 0 <= k < |rendered|
        ensures ')' !in rendered[k]
      {
        RenderTypeChars(m.throws[k]);
      }
      CharNotInJoin(rendered, ", ", ')');
      var joined := Join(rendered, ", ");
      assert last == "throws " + joined;
      if joined == [] {
        assert last[|last| - 1] == ' ';
      } else {
        assert last[|last| - 1] == joined[|joined| - 1];
      }
    }
  }

  /** A varargs parameter whose type is an array of a plain name shows one "..." per
      array dimension. */
  lemma VarargsArrayShowsDots(n: string, d: nat)
    requires IsName(n) && n != "?"
    ensures Replace(RenderType(Ref(n, [], d)), "[]", "...") == n + Repeat("...", d)
  {
    assert RenderType(Ref(n, [], d)) == n + Repeat("[]", d);
    assert forall i :: 0 <= i < |n| ==> n[i] != '[';
    ReplaceAfterPrefix(n, Repeat("[]", d), "[]", "...");
    ReplaceRepeat("[]", "...", d);
  }

  /** Whatever the type, the varargs form of its text contains no "[]". */
  lemma VarargsLeavesNoBrackets(t: JType)
    ensures !Contains(Replace(RenderType(t), "[]", "..."), "[]")
  {
    ReplacedPairGone(RenderType(t), '[', ']', "...");
  }
}
