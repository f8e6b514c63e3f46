/**
 * The parse tree the signature-skeleton renderer reads, reduced to exactly the
 * attributes `JavaCodeSanitizer` looks at. The Java parser itself is not part of
 * this model: its output is an input here, and a syntax error is one of its two
 * outcomes.
 */
module JavaAst {
  import opened Wrappers
  import opened PyText

  /** A declaration statement names at least one variable. */
  type DeclaratorNames = names: seq<string> | |names| >= 1 witness [""]

  /** A type node.
      `Ref` is a reference type (name, type arguments, array dimension count);
      `Named` is any other node that has a `name` attribute, such as a primitive type;
      `Nameless` is a value that has no `name` attribute at all. A Python `None` in a
      position the renderer reads unconditionally (a method's return type, a field's or
      parameter's type, a type argument's own type) is `Nameless`; in the positions the
      code tests before reading (a class's `extends`, a wildcard's two bounds) it is the
      `None` of `Option`. */
  datatype JType =
    | Ref(name: string, arguments: seq<TypeArgument>, dimensions: nat)
    | Named(name: string)
    | Nameless

  /** One type argument: the argument's own type, and the bounds a wildcard may carry. */
  datatype TypeArgument = TypeArgument(argType: JType, upperBound: Option<JType>, lowerBound: Option<JType>)

  /** A formal parameter of a method. */
  datatype Parameter = Parameter(modifiers: seq<string>, paramType: JType, name: string, varargs: bool)

  /** A member of a class body.
      `Other` stands for every other kind of member (a constructor node, an initializer,
      a nested class, interface or enum declaration). `classes` lists, in walk order
      and outermost first, the class declarations the tree walk finds inside the
      member: local classes in a method's body, classes declared inside an anonymous
      class body in a field's initializer or a method's body, and, for a nested class,
      that class itself. */
  datatype Member =
    | Field(modifiers: seq<string>, fieldType: JType, declarators: DeclaratorNames,
            classes: seq<ClassDecl>)
    | Method(modifiers: seq<string>, typeParameters: seq<string>, returnType: JType,
             name: string, parameters: seq<Parameter>, throws: seq<JType>,
             classes: seq<ClassDecl>)
    | Other(classes: seq<ClassDecl>)

  /** A class declaration. `typeParameters` holds the parameter names only; an
      absent `extends` clause is a `None` superclass and an absent `implements` list is empty. */
  datatype ClassDecl = ClassDecl(
    modifiers: seq<string>,
    name: string,
    typeParameters: seq<string>,
    superclass: Option<JType>,
    implements: seq<JType>,
    body: seq<Member>)

  /** A parsed source file: its outermost class declarations in walk order (top-level
      classes, and classes declared directly inside top-level interfaces or enums). */
  datatype CompilationUnit = CompilationUnit(classes: seq<ClassDecl>)

  /** What the parser returns for a source text: a tree, or a syntax error carrying
      the offending location and a message. */
  datatype ParseOutcome = Parsed(unit: CompilationUnit) | SyntaxError(at: string, message: string)

  /** Characters of a Java (possibly qualified) name. */
  predicate IsNameChar(c: char)
  {
    IsWordChar(c) || c == '$' || c == '.'
  }

  /** A non-empty name made of name characters only. */
  predicate IsName(s: string)
  {
    |s| > 0 && forall i :: 0 <= i < |s| ==> IsNameChar(s[i])
  }

  /** Every name inside a type is a proper name (a reference type may also be the
      wildcard `?`): the shape a Java parser produces. */
  predicate WellNamed(t: JType)
  {
    match t
    case Nameless => true
    case Named(n) => IsName(n)
    case Ref(n, args, _) =>
      && (n == "?" || IsName(n))
      && forall i :: 0 <= i < |args| ==> WellNamedArgument(args[i])
  }

  predicate WellNamedArgument(a: TypeArgument)
  {
    && WellNamed(a.argType)
    && (a.upperBound.Some? ==> WellNamed(a.upperBound.value))
    && (a.lowerBound.Some? ==> WellNamed(a.lowerBound.value))
  }
}
