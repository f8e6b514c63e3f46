/**
 * A reading of the type texts the renderer produces. `Shape` is what a rendered
 * type still shows; `Norm` maps a type node to its shape, `Print` writes a shape
 * out, and `ParseType` reads a text back. The main result: for every well-named
 * type, the rendered text parses back to exactly the type's shape, so rendering
 * forgets precisely what `Norm` forgets (array dimensions under type arguments,
 * every wildcard argument but the first, a wildcard argument's own type) and
 * nothing else.
 */
module TypeSyntax {
  import opened Wrappers
  import opened PyText
  import opened JavaAst
  import opened Sanitizer

  /** What a rendered type text shows. */
  datatype Shape =
    | Blank                                 // the empty text of a nameless node
    | Wildcard                              // `?`
    | Extends(bound: Shape)                 // `? extends B`
    | Super(bound: Shape)                   // `? super B`
    | Generic(name: string, args: seq<Shape>) // `Name<A, B>`
    | Plain(name: string, dims: nat)        // `Name` followed by `[]` per dimension

  /** The shape a type node renders to. */
  function Norm(t: JType): Shape
    decreases t
  {
    match t
    case Nameless => Blank
    case Named(n) => Plain(n, 0)
    case Ref(n, args, d) =>
      if n == "?" then
        if |args| > 0 && args[0].upperBound.Some? then Extends(Norm(args[0].upperBound.value))
        else if |args| > 0 && args[0].lowerBound.Some? then Super(Norm(args[0].lowerBound.value))
        else Wildcard
      else if |args| > 0 then Generic(n, seq(|args|, i requires 0 <= i < |args| => Norm(args[i].argType)))
      else Plain(n, d)
  }

  /** Shapes whose names are proper names and whose argument lists are non-empty. */
  predicate WellFormed(x: Shape)
  {
    match x
    case Blank => true
    case Wildcard => true
    case Extends(b) => WellFormed(b)
    case Super(b) => WellFormed(b)
    case Generic(n, args) => IsName(n) && |args| > 0 && forall i :: 0 <= i < |args| ==> WellFormed(args[i])
    case Plain(n, _) => IsName(n)
  }

  /** The text of a shape. */
  function Print(x: Shape): string
    decreases x
  {
    match x
    case Blank => ""
    case Wildcard => "?"
    case Extends(b) => "? extends " + Print(b)
    case Super(b) => "? super " + Print(b)
    case Generic(n, args) => n + "<" + Join(Prints(x, args), ", ") + ">"
    case Plain(n, d) => n + Repeat("[]", d)
  }

  /** The texts of some of the arguments of a generic shape. */
  function Prints(ghost parent: Shape, args: seq<Shape>): (r: seq<string>)
    requires forall i :: 0 <= i < |args| ==> args[i] < parent
    ensures |r| == |args|
    decreases parent, 0
  {
    seq(|args|, i requires 0 <= i < |args| => Print(args[i]))
  }

  // ---------------------------------------------------------------------------
  // The reader
  // ---------------------------------------------------------------------------

  /** The length of the longest prefix made of name characters. */
  function NameEnd(s: string): (k: nat)
    ensures k <= |s|
  {
    if s != [] && IsNameChar(s[0]) then 1 + NameEnd(s[1..]) else 0
  }

  /** The number of leading "[]" pairs, and what follows them. */
  function Dims(s: string): (r: (nat, string))
    ensures |r.1| <= |s|
    decreases |s|
  {
    if StartsWith(s, "[]") then
      var (d, rest) := Dims(s[2..]);
      (d + 1, rest)
    else (0, s)
  }

  /** Reads one type from the front of a text; returns it and what follows. */
  function ParseShape(s: string): (r: Option<(Shape, string)>)
    ensures r.Some? ==> |r.value.1| <= |s|
    decreases |s|, 2
  {
    if StartsWith(s, "?") then ParseWildcard(s[1..]) else ParseNamed(s)
  }

  /** Reads what follows a `?`: an optional `extends` or `super` bound. */
  function ParseWildcard(after: string): (r: Option<(Shape, string)>)
    ensures r.Some? ==> |r.value.1| <= |after|
    decreases |after| + 1, 1
  {
    if StartsWith(after, " extends ") then
      match ParseShape(after[9..])
      case None => None
      case Some((b, rest)) => Some((Extends(b), rest))
    else if StartsWith(after, " super ") then
      match ParseShape(after[7..])
      case None => None
      case Some((b, rest)) => Some((Super(b), rest))
    else Some((Wildcard, after))
  }

  /** Reads a name with its type arguments or array dimensions; reads nothing, as
      the blank type, when no name starts the text. */
  function ParseNamed(s: string): (r: Option<(Shape, string)>)
    ensures r.Some? ==> |r.value.1| <= |s|
    decreases |s|, 1
  {
    var k := NameEnd(s);
    if k == 0 then Some((Blank, s))
    else if StartsWith(s[k..], "<") then
      match ParseArgs(s[k + 1..])
      case None => None
      case Some((args, rest)) => Some((Generic(s[..k], args), rest))
    else
      var (d, rest) := Dims(s[k..]);
      Some((Plain(s[..k], d), rest))
  }

  /** Reads "A, B, ...>" from the front of a text. */
  function ParseArgs(s: string): (r: Option<(seq<Shape>, string)>)
    ensures r.Some? ==> |r.value.1| < |s|
    decreases |s|, 3
  {
    match ParseShape(s)
    case None => None
    case Some((a, after)) =>
      if StartsWith(after, ", ") then
        match ParseArgs(after[2..])
        case None => None
        case Some((more, rest)) => Some(([a] + more, rest))
      else if StartsWith(after, ">") then Some(([a], after[1..]))
      else None
  }

  /** Reads a whole text as one type. */
  function ParseType(s: string): Option<Shape>
  {
    match ParseShape(s)
    case Some((x, rest)) => if rest == [] then Some(x) else None
    case None => None
  }

  // ---------------------------------------------------------------------------
  // Rendering, printing and reading agree
  // ---------------------------------------------------------------------------

  /** Rendering a type node is printing its shape. */
  lemma {:induction false} RenderIsPrintOfNorm(t: JType)
    ensures RenderType(t) == Print(Norm(t))
    decreases t
  {
    match t
    case Nameless =>
    case Named(n) =>
      assert Repeat("[]", 0) == [];
    case Ref(n, args, d) =>
      if n == "?" {
        if |args| > 0 && args[0].upperBound.Some? {
          RenderIsPrintOfNorm(args[0].upperBound.value);
        } else if |args| > 0 && args[0].lowerBound.Some? {
          RenderIsPrintOfNorm(args[0].lowerBound.value);
        }
      } else if |args| > 0 {
        var x := Norm(t);
        var normed := seq(|args|, i requires 0 <= i < |args| => Norm(args[i].argType));
        assert x == Generic(n, normed);
        var rendered := seq(|args|, i requires 0 <= i < |args| => RenderType(args[i].argType));
        forall i | 0 <= i < |args|
          ensures rendered[i] == Prints(x, normed)[i]
        {
          RenderIsPrintOfNorm(args[i].argType);
        }
        assert rendered == Prints(x, normed);
      } else if d == 0 {
        assert Repeat("[]", 0) == [];
      }
  }

  /** The shape of a well-named type is well formed. */
  lemma {:induction false} NormWellFormed(t: JType)
    requires WellNamed(t)
    ensures WellFormed(Norm(t))
    decreases t
  {
    match t
    case Nameless =>
    case Named(n) =>
    case Ref(n, args, d) =>
      if n == "?" {
        if |args| > 0 && args[0].upperBound.Some? {
          assert WellNamedArgument(args[0]);
          NormWellFormed(args[0].upperBound.value);
        } else if |args| > 0 && args[0].lowerBound.Some? {
          assert WellNamedArgument(args[0]);
          NormWellFormed(args[0].lowerBound.value);
        }
      } else if |args| > 0 {
        forall i | 0 <= i < |args|
          ensures WellFormed(Norm(args[i].argType))
        {
          assert WellNamedArgument(args[i]);
          NormWellFormed(args[i].argType);
        }
      }
  }

  /** What may follow a type inside a rendered text: nothing, a comma or a closing
      angle bracket. */
  predicate FollowsType(rest: string)
  {
    rest == [] || rest[0] == ',' || rest[0] == '>'
  }

  /** A name stops at the first character that cannot belong to it. */
  lemma {:induction false} NameEndOfName(n: string, rest: string)
    requires forall i :: 0 <= i < |n| ==> IsNameChar(n[i])
    requires rest == [] || !IsNameChar(rest[0])
    ensures NameEnd(n + rest) == |n|
    decreases |n|
  {
    if n == [] {
      assert n + rest == rest;
    } else {
      assert (n + rest)[1..] == n[1..] + rest;
      NameEndOfName(n[1..], rest);
    }
  }

  /** Reading dimensions counts exactly the printed pairs. */
  lemma {:induction false} DimsOfRepeat(d: nat, rest: string)
    requires FollowsType(rest)
    ensures Dims(Repeat("[]", d) + rest) == (d, rest)
  {
    if d == 0 {
      assert Repeat("[]", 0) + rest == rest;
      assert !StartsWith(rest, "[]");
    } else {
      var u := Repeat("[]", d - 1) + rest;
      assert Repeat("[]", d) + rest == "[]" + u;
      DimsOfRepeat(d - 1, rest);
      DimsStep(u);
    }
  }

  /** A leading `[]` adds one dimension to what the remainder reads as. */
  lemma DimsStep(u: string)
    ensures Dims("[]" + u) == (Dims(u).0 + 1, Dims(u).1)
  {
    assert ("[]" + u)[..2] == "[]";
    assert ("[]" + u)[2..] == u;
  }

  /** Reading a printed shape followed by what may follow a type gives the shape
      back, and leaves the rest. */
  lemma {:induction false} ParsePrinted(x: Shape, rest: string)
    requires WellFormed(x) && FollowsType(rest)
    ensures ParseShape(Print(x) + rest) == Some((x, rest))
    decreases x, 1, 0
  {
    match x
    case Blank => ReadsBlank(rest);
    case Wildcard => ReadsWildcard(rest);
    case Extends(b) =>
      ParsePrinted(b, rest);
      ReadsExtends(b, rest);
    case Super(b) =>
      ParsePrinted(b, rest);
      ReadsSuper(b, rest);
    case Generic(n, args) =>
      ParsePrintedArgs(x, 0, rest);
      assert args[0..] == args;
      ReadsGeneric(x, rest);
    case Plain(n, d) => ReadsPlain(n, d, rest);
  }

  /** The blank type is read from the empty text. */
  lemma ReadsBlank(rest: string)
    requires FollowsType(rest)
    ensures ParseShape(Print(Blank) + rest) == Some((Blank, rest))
  {
    assert Print(Blank) + rest == rest;
    assert !StartsWith(rest, "?");
    assert NameEnd(rest) == 0;
    assert ParseShape(rest) == ParseNamed(rest);
  }

  /** A bare `?` is read as the unbounded wildcard. */
  lemma ReadsWildcard(rest: string)
    requires FollowsType(rest)
    ensures ParseShape(Print(Wildcard) + rest) == Some((Wildcard, rest))
  {
    var s := Print(Wildcard) + rest;
    assert s == "?" + rest;
    assert s[1..] == rest;
    assert ParseShape(s) == ParseWildcard(rest);
    assert !StartsWith(rest, " extends ") && !StartsWith(rest, " super ");
  }

  /** `? extends B` is read as an upper-bounded wildcard once `B` is read. */
  lemma ReadsExtends(b: Shape, rest: string)
    requires ParseShape(Print(b) + rest) == Some((b, rest))
    ensures ParseShape(Print(Extends(b)) + rest) == Some((Extends(b), rest))
  {
    assert Print(Extends(b)) + rest == "?" + (" extends " + (Print(b) + rest));
    ReadsBound(Print(b) + rest, b, rest);
  }

  /** `? super B` is read as a lower-bounded wildcard once `B` is read. */
  lemma ReadsSuper(b: Shape, rest: string)
    requires ParseShape(Print(b) + rest) == Some((b, rest))
    ensures ParseShape(Print(Super(b)) + rest) == Some((Super(b), rest))
  {
    assert Print(Super(b)) + rest == "?" + (" super " + (Print(b) + rest));
    ReadsBound(Print(b) + rest, b, rest);
  }

  /** A wildcard keyword followed by a text that reads as a bound. */
  lemma ReadsBound(t: string, b: Shape, rest: string)
    requires ParseShape(t) == Some((b, rest))
    ensures ParseShape("?" + (" extends " + t)) == Some((Extends(b), rest))
    ensures ParseShape("?" + (" super " + t)) == Some((Super(b), rest))
  {
    var up := " extends " + t;
    assert ("?" + up)[..1] == "?";
    assert ("?" + up)[1..] == up;
    assert up[..9] == " extends ";
    assert up[9..] == t;
    assert ParseWildcard(up) == Some((Extends(b), rest));
    var down := " super " + t;
    assert ("?" + down)[..1] == "?";
    assert ("?" + down)[1..] == down;
    assert down[1] == 's' && " extends "[1] == 'e';
    assert !StartsWith(down, " extends ");
    assert down[..7] == " super ";
    assert down[7..] == t;
    assert ParseWildcard(down) == Some((Super(b), rest));
  }

  /** `Name<A, B>` is read as a generic type once its arguments are read. */
  lemma ReadsGeneric(x: Shape, rest: string)
    requires x.Generic? && IsName(x.name)
    requires forall i :: 0 <= i < |x.args| ==> x.args[i] < x
    requires ParseArgs(Join(Prints(x, x.args), ", ") + ">" + rest) == Some((x.args, rest))
    ensures ParseShape(Print(x) + rest) == Some((x, rest))
  {
    var n := x.name;
    var s := Print(x) + rest;
    var inner := Join(Prints(x, x.args), ", ") + ">" + rest;
    assert s == n + ("<" + inner);
    NameEndOfName(n, "<" + inner);
    assert s[0] == n[0];
    assert !StartsWith(s, "?");
    assert ParseShape(s) == ParseNamed(s);
    assert s[..|n|] == n;
    assert s[|n|..] == "<" + inner;
    assert s[|n| + 1..] == inner;
  }

  /** `Name[]...[]` is read as a named type with that many dimensions. */
  lemma ReadsPlain(n: string, d: nat, rest: string)
    requires IsName(n) && FollowsType(rest)
    ensures ParseShape(Print(Plain(n, d)) + rest) == Some((Plain(n, d), rest))
  {
    var s := Print(Plain(n, d)) + rest;
    var tail := Repeat("[]", d) + rest;
    assert s == n + tail;
    assert tail == [] || tail[0] == '[' || tail[0] == ',' || tail[0] == '>' by {
      if d > 0 {
        assert tail[0] == '[';
      }
    }
    NameEndOfName(n, tail);
    assert s[0] == n[0];
    assert !StartsWith(s, "?");
    assert ParseShape(s) == ParseNamed(s);
    assert s[..|n|] == n;
    assert s[|n|..] == tail;
    assert !StartsWith(tail, "<");
    DimsOfRepeat(d, rest);
  }

  /** Reading the printed arguments of a generic shape, from index `from` on,
      followed by ">" gives those arguments back. */
  lemma {:induction false} ParsePrintedArgs(x: Shape, from: nat, rest: string)
    requires x.Generic? && WellFormed(x) && from < |x.args|
    ensures ParseArgs(Join(Prints(x, x.args[from..]), ", ") + ">" + rest) == Some((x.args[from..], rest))
    decreases x, 0, |x.args| - from
  {
    var args := x.args;
    var a := args[from];
    assert WellFormed(a) && a < x;
    ArgumentTexts(x, from, rest);
    if from == |args| - 1 {
      ParsePrinted(a, ">" + rest);
      ReadsLastArgument(Print(a), a, rest);
      assert args[from..] == [a];
    } else {
      var more := Join(Prints(x, args[from + 1..]), ", ") + ">" + rest;
      ParsePrinted(a, ", " + more);
      ParsePrintedArgs(x, from + 1, rest);
      ReadsNextArgument(Print(a), a, more, args[from + 1..], rest);
      assert [a] + args[from + 1..] == args[from..];
    }
  }

  /** The argument texts from one position on, closed by `>`: the first argument's
      text, then either the closing `>` or a comma and the rest. */
  lemma ArgumentTexts(x: Shape, from: nat, rest: string)
    requires x.Generic? && from < |x.args|
    requires forall i :: 0 <= i < |x.args| ==> x.args[i] < x
    ensures from == |x.args| - 1 ==>
      Join(Prints(x, x.args[from..]), ", ") + ">" + rest == Print(x.args[from]) + (">" + rest)
    ensures from < |x.args| - 1 ==>
      Join(Prints(x, x.args[from..]), ", ") + ">" + rest
        == Print(x.args[from]) + (", " + (Join(Prints(x, x.args[from + 1..]), ", ") + ">" + rest))
    ensures (">" + rest)[0] == '>'
    ensures (", " + (Join(Prints(x, x.args[from + 1..]), ", ") + ">" + rest))[0] == ','
  {
    var texts := Prints(x, x.args[from..]);
    assert texts[0] == Print(x.args[from]);
    if from < |x.args| - 1 {
      assert texts[1..] == Prints(x, x.args[from + 1..]);
    }
  }

  /** One argument text followed by `>` closes the argument list. */
  lemma ReadsLastArgument(t: string, a: Shape, rest: string)
    requires ParseShape(t + (">" + rest)) == Some((a, ">" + rest))
    ensures ParseArgs(t + ">" + rest) == Some(([a], rest))
  {
    var u := ">" + rest;
    assert t + ">" + rest == t + u;
    assert u[0] == '>';
    assert !StartsWith(u, ", ") by {
      if |u| >= 2 {
        assert u[..2][0] == '>';
      }
    }
    assert u[..1] == ">";
    assert u[1..] == rest;
  }

  /** One argument text followed by `, ` and a readable remainder of the list. */
  lemma ReadsNextArgument(t: string, a: Shape, more: string, args: seq<Shape>, rest: string)
    requires ParseShape(t + (", " + more)) == Some((a, ", " + more))
    requires ParseArgs(more) == Some((args, rest))
    ensures ParseArgs(t + (", " + more)) == Some(([a] + args, rest))
  {
    assert (", " + more)[..2] == ", ";
    assert (", " + more)[2..] == more;
  }

  /** The text of a well-named type reads back as exactly that type's shape. */
  lemma RenderedTypeParsesBack(t: JType)
    requires WellNamed(t)
    ensures ParseType(RenderType(t)) == Some(Norm(t))
  {
    RenderIsPrintOfNorm(t);
    NormWellFormed(t);
    ParsePrinted(Norm(t), []);
    assert Print(Norm(t)) + [] == Print(Norm(t));
  }

  /** Two well-named types render to the same text only when they have the same shape. */
  lemma SameTextSameShape(t1: JType, t2: JType)
    requires WellNamed(t1) && WellNamed(t2) && RenderType(t1) == RenderType(t2)
    ensures Norm(t1) == Norm(t2)
  {
    RenderedTypeParsesBack(t1);
    RenderedTypeParsesBack(t2);
  }
}
