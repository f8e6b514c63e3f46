/**
 * `CodeAnalyzer.get_referenced_classes`: the names the pattern
 * `^import\s+([\w.]+?)(?:\.\*)?;` finds, in MULTILINE mode, with `re.findall`,
 * de-duplicated through a set.
 *
 * The pattern is modelled by what its backtracking search settles on. `\s+` is
 * greedy and the group cannot start with whitespace, so it always takes the whole
 * whitespace run after `import`. The group `[\w.]+?` is lazy: it takes the
 * shortest run of name characters after which either `.*;` or `;` follows (the
 * optional `(?:\.\*)?` is tried first, so a `.*;` ends the match after the `;`).
 */
module Imports {
  import opened Wrappers
  import opened PyText

  /** The class `[\w.]`. */
  predicate IsPathChar(c: char)
  {
    IsWordChar(c) || c == '.'
  }

  /** Where `^` matches in MULTILINE mode: at the start and after every line feed. */
  predicate LineStart(s: string, p: nat)
  {
    p == 0 || (p <= |s| && s[p - 1] == '\n')
  }

  /** What may end the group: `;`, or `.*;`. */
  predicate Terminates(t: string)
  {
    StartsWith(t, ";") || StartsWith(t, ".*;")
  }

  /** Where the whitespace run `\s*` starting at `i` ends. */
  function SpaceRun(t: string, i: nat): (r: nat)
    requires i <= |t|
    ensures i <= r <= |t|
    ensures r == |t| || !IsSpace(t[r])
    decreases |t| - i
  {
    if i < |t| && IsSpace(t[i]) then SpaceRun(t, i + 1) else i
  }

  /** Everything the whitespace run takes is whitespace. */
  lemma {:induction false} SpaceRunSpaces(t: string, i: nat)
    requires i <= |t|
    ensures forall j :: i <= j < SpaceRun(t, i) ==> IsSpace(t[j])
    decreases |t| - i
  {
    if i < |t| && IsSpace(t[i]) {
      SpaceRunSpaces(t, i + 1);
    }
  }

  /** The lazy group starting at `q`: the first end, from `e` on, that a terminator
      follows, while the characters stay name characters; `None` when the run of
      name characters ends without one. */
  function LazyName(t: string, q: nat, e: nat): (r: Option<nat>)
    requires q < e <= |t|
    ensures r.Some? ==> e <= r.value <= |t| && Terminates(t[r.value..])
    decreases |t| - e
  {
    if Terminates(t[e..]) then Some(e)
    else if e < |t| && IsPathChar(t[e]) then LazyName(t, q, e + 1)
    else None
  }

  /** The group the lazy search settles on is made of name characters, and no
      shorter one has a terminator behind it. */
  lemma {:induction false} LazyNameSound(t: string, q: nat, e: nat)
    requires q < e <= |t|
    requires forall i :: q <= i < e ==> IsPathChar(t[i])
    requires LazyName(t, q, e).Some?
    ensures forall i :: q <= i < LazyName(t, q, e).value ==> IsPathChar(t[i])
    ensures forall j :: e <= j < LazyName(t, q, e).value ==> !Terminates(t[j..])
    decreases |t| - e
  {
    if !Terminates(t[e..]) {
      LazyNameSound(t, q, e + 1);
    }
  }

  /** One match of the pattern at the front of a text: the group, where it starts,
      and how much of the text the whole match spans. */
  datatype ImportMatch = ImportMatch(name: string, nameAt: nat, length: nat)

  /** The pattern (without its `^`) tried at the front of a text. */
  function MatchText(t: string): (r: Option<ImportMatch>)
    ensures r.Some? ==> 7 <= r.value.nameAt < r.value.nameAt + |r.value.name| < r.value.length <= |t|
  {
    if !StartsWith(t, "import") then None
    else
      var q := SpaceRun(t, 6);
      if q == 6 || q == |t| || !IsPathChar(t[q]) then None
      else match LazyName(t, q, q + 1)
        case None => None
        case Some(e) => Some(ImportMatch(t[q..e], q, if t[e] == ';' then e + 1 else e + 3))
  }

  /** The import statement the pattern describes, read declaratively: `import`,
      whitespace up to `q` (at least one character), a group of name characters from
      `q` to `e` (at least one) that a terminator follows, and no shorter group that
      a terminator follows. */
  predicate IsImportStatement(t: string, q: nat, e: nat)
  {
    && 6 < q < e <= |t| && StartsWith(t, "import")
    && (forall i :: 6 <= i < q ==> IsSpace(t[i]))
    && (forall i :: q <= i < e ==> IsPathChar(t[i]))
    && Terminates(t[e..])
    && forall j :: q < j < e ==> !Terminates(t[j..])
  }

  /** The match the whole pattern, `^` included, makes at position `p` of `s`. */
  function Found(s: string, p: nat): Option<ImportMatch>
    requires p <= |s|
  {
    if LineStart(s, p) then MatchText(s[p..]) else None
  }

  /** `re.findall` from position `p` on: at each position, a match is taken and the
      search resumes after it; otherwise the search moves on by one. */
  function FindAll(s: string, p: nat): (r: seq<string>)
    requires p <= |s|
    decreases |s| - p
  {
    if p == |s| then []
    else if Found(s, p).None? then FindAll(s, p + 1)
    else [Found(s, p).value.name] + FindAll(s, p + Found(s, p).value.length)
  }

  /** `list(set(xs))`, with the set's iteration order fixed to first occurrence. */
  function Dedup(xs: seq<string>): (r: seq<string>)
    ensures forall x :: x in r <==> x in xs
    ensures forall i, j :: 0 <= i < j < |r| ==> r[i] != r[j]
  {
    if xs == [] then []
    else
      var d := Dedup(xs[..|xs| - 1]);
      var x := xs[|xs| - 1];
      assert forall y :: y in xs <==> y in xs[..|xs| - 1] || y == x;
      if x in d then d else d + [x]
  }

  /** `get_referenced_classes`: the distinct names the pattern finds in a source text. */
  function ReferencedClasses(source: string): seq<string>
  {
    Dedup(FindAll(source, 0))
  }

  // ---------------------------------------------------------------------------
  // The search agrees with the declarative reading
  // ---------------------------------------------------------------------------

  lemma NameCharIsNoSpace(c: char)
    requires IsPathChar(c)
    ensures !IsSpace(c)
  {
  }

  /** A match is what an import statement at the front of `t` spells: the statement
      with its name, and a span through the terminator. */
  predicate Spells(t: string, m: ImportMatch)
  {
    var e := m.nameAt + |m.name|;
    && IsImportStatement(t, m.nameAt, e)
    && m.name == t[m.nameAt..e]
    && m.length == if t[e] == ';' then e + 1 else e + 3
  }

  /** A match found at the front of a text is an import statement, its group the
      name the statement spells, its span ending after `;` or `.*;`. */
  lemma MatchTextSound(t: string)
    requires MatchText(t).Some?
    ensures Spells(t, MatchText(t).value)
  {
    var q := SpaceRun(t, 6);
    var e := LazyName(t, q, q + 1).value;
    SpaceRunSpaces(t, 6);
    LazyNameSound(t, q, q + 1);
    assert MatchText(t).value == ImportMatch(t[q..e], q, if t[e] == ';' then e + 1 else e + 3);
  }

  /** The whitespace run is exactly the spaces in front of a non-space. */
  lemma {:induction false} SpaceRunExact(t: string, i: nat, q: nat)
    requires i <= q < |t| && !IsSpace(t[q])
    requires forall j :: i <= j < q ==> IsSpace(t[j])
    ensures SpaceRun(t, i) == q
    decreases q - i
  {
    if i < q {
      SpaceRunExact(t, i + 1, q);
    }
  }

  /** The lazy group settles on the first end that a terminator follows. */
  lemma {:induction false} LazyNameLeast(t: string, q: nat, e: nat, end: nat)
    requires q < e <= end <= |t|
    requires forall i :: q <= i < end ==> IsPathChar(t[i])
    requires Terminates(t[end..])
    requires forall j :: e <= j < end ==> !Terminates(t[j..])
    ensures LazyName(t, q, e) == Some(end)
    decreases end - e
  {
    if e < end {
      LazyNameLeast(t, q, e + 1, end);
    }
  }

  /** Every import statement is found, with the name it spells. */
  lemma MatchTextComplete(t: string, q: nat, e: nat)
    requires IsImportStatement(t, q, e)
    ensures MatchText(t).Some?
    ensures MatchText(t).value.nameAt == q
    ensures MatchText(t).value.name == t[q..e]
  {
    NameCharIsNoSpace(t[q]);
    SpaceRunExact(t, 6, q);
    LazyNameLeast(t, q, q + 1, e);
  }

  /** Position `k` of `t` cannot start a match: it is not at a line start, or
      `import` and a whitespace character do not follow. */
  predicate CannotStartAt(t: string, k: nat)
    requires 0 < k <= |t|
  {
    t[k - 1] != '\n' || |t| <= k + 6 || t[k..k + 6] != "import" || !IsSpace(t[k + 6])
  }

  /** A text that does not open with `import` and a whitespace character holds no match. */
  lemma NoKeywordNoMatch(x: string)
    requires |x| <= 6 || x[..6] != "import" || !IsSpace(x[6])
    ensures MatchText(x).None?
  {
  }

  /** No position strictly inside an import statement's span can start a match. */
  lemma InsideStatement(t: string, q: nat, e: nat, k: nat)
    requires IsImportStatement(t, q, e)
    requires 0 < k < (if t[e] == ';' then e + 1 else e + 3)
    ensures k <= |t| && CannotStartAt(t, k)
  {
    assert Terminates(t[e..]);
    assert t[e] == ';' || (e + 3 <= |t| && t[e + 1] == '*');
    if k - 1 < 6 {
      assert t[k - 1] == t[..6][k - 1];
    } else if k < q {
      assert IsSpace(t[k]);
      assert k + 6 < |t| ==> t[k..k + 6][0] == t[k];
    } else if k == q {
      if e - q > 6 {
        NameCharIsNoSpace(t[q + 6]);
      } else if e - q < 6 && q + 6 < |t| {
        assert t[q..q + 6][e - q] == t[e];
      }
    } else if k - 1 < e {
      assert IsPathChar(t[k - 1]);
    }
  }

  /** A position that cannot start a match in a suffix of `s` starts none in `s`. */
  lemma NoStartInSuffix(s: string, p: nat, r: nat)
    requires p < r <= |s| && CannotStartAt(s[p..], r - p)
    ensures Found(s, r).None?
  {
    var t := s[p..];
    var k := r - p;
    assert s[r - 1] == t[k - 1];
    var x := s[r..];
    if |x| > 6 {
      SuffixWindow(s, p, r, 6);
      assert x[6] == t[k + 6];
    }
    if LineStart(s, r) {
      NoKeywordNoMatch(x);
    }
  }

  /** No match starts inside another: every position strictly inside a match's span
      fails either `^` or the pattern. */
  lemma NoMatchInside(s: string, p: nat, r: nat)
    requires p < r <= |s| && Found(s, p).Some? && r < p + Found(s, p).value.length
    ensures Found(s, r).None?
  {
    var m := Found(s, p).value;
    MatchTextSound(s[p..]);
    InsideStatement(s[p..], m.nameAt, m.nameAt + |m.name|, r - p);
    NoStartInSuffix(s, p, r);
  }

  /** The name a match at position `r` of `s` captures. */
  predicate FoundAt(s: string, r: nat, name: string)
  {
    r < |s| && Found(s, r).Some? && Found(s, r).value.name == name
  }

  /** Whether some match from position `p0` on captures `name`. */
  ghost predicate FoundFrom(s: string, p0: nat, name: string)
  {
    exists r :: p0 <= r && FoundAt(s, r, name)
  }

  /** No match starts at the end of the text. */
  lemma NothingFoundAtEnd(s: string, name: string)
    ensures !FoundFrom(s, |s|, name)
  {
  }

  /** Stepping past a position where nothing matches keeps the matches found. */
  lemma SkipStep(s: string, p0: nat, name: string)
    requires p0 < |s| && Found(s, p0).None?
    ensures FoundFrom(s, p0, name) <==> FoundFrom(s, p0 + 1, name)
  {
    if FoundFrom(s, p0, name) {
      var r :| p0 <= r && FoundAt(s, r, name);
      assert p0 + 1 <= r;
    }
  }

  /** Jumping over a match loses only the match itself: nothing starts inside it. */
  lemma MatchStep(s: string, p0: nat, name: string)
    requires p0 < |s| && Found(s, p0).Some?
    ensures FoundFrom(s, p0, name) <==>
      name == Found(s, p0).value.name || FoundFrom(s, p0 + Found(s, p0).value.length, name)
  {
    var x := Found(s, p0).value;
    var next := p0 + x.length;
    if FoundFrom(s, p0, name) && name != x.name {
      var r :| p0 <= r && FoundAt(s, r, name);
      if r < next {
        NoMatchInside(s, p0, r);
      }
      assert next <= r;
    }
    if name == x.name {
      assert FoundAt(s, p0, name);
    }
  }

  /** One step of `findall` past a match: the match's name, then what follows it. */
  lemma FindAllAtMatch(s: string, p: nat, name: string)
    requires p < |s| && Found(s, p).Some?
    ensures name in FindAll(s, p) <==>
      name == Found(s, p).value.name || name in FindAll(s, p + Found(s, p).value.length)
  {
    assert FindAll(s, p) == [Found(s, p).value.name] + FindAll(s, p + Found(s, p).value.length);
  }

  /** One step of `findall` past a position where nothing matches. */
  lemma FindAllAtMiss(s: string, p: nat, name: string)
    requires p < |s| && Found(s, p).None?
    ensures name in FindAll(s, p) <==> name in FindAll(s, p + 1)
  {
  }

  /** `findall` from `p0` on returns a name exactly when the pattern matches, with
      that name, at some position from `p0` on: taking the matches left to right
      without overlap loses none. */
  lemma {:induction false} FindAllFindsEveryMatch(s: string, p0: nat, name: string)
    requires p0 <= |s|
    ensures name in FindAll(s, p0) <==> FoundFrom(s, p0, name)
    decreases |s| - p0
  {
    if p0 == |s| {
      NothingFoundAtEnd(s, name);
    } else if Found(s, p0).None? {
      FindAllFindsEveryMatch(s, p0 + 1, name);
      FindAllAtMiss(s, p0, name);
      SkipStep(s, p0, name);
    } else {
      FindAllFindsEveryMatch(s, p0 + Found(s, p0).value.length, name);
      FindAllAtMatch(s, p0, name);
      MatchStep(s, p0, name);
    }
  }

  /** An import statement spelling `name` starts at position `p` of `s`, at the
      start of a line. */
  ghost predicate ImportStatementAt(s: string, p: nat, name: string)
  {
    && p < |s| && LineStart(s, p)
    && exists q: nat, e: nat :: q <= e <= |s| - p && IsImportStatement(s[p..], q, e) && name == s[p..][q..e]
  }

  /** The pattern matches at a position exactly where an import statement starts. */
  lemma FoundIffStatement(s: string, p: nat, name: string)
    ensures FoundAt(s, p, name) <==> ImportStatementAt(s, p, name)
  {
    if FoundAt(s, p, name) {
      MatchTextSound(s[p..]);
      var m := MatchText(s[p..]).value;
      assert IsImportStatement(s[p..], m.nameAt, m.nameAt + |m.name|);
    }
    if ImportStatementAt(s, p, name) {
      var q: nat, e: nat :| q <= e <= |s| - p && IsImportStatement(s[p..], q, e) && name == s[p..][q..e];
      MatchTextComplete(s[p..], q, e);
    }
  }

  /** A name is referenced exactly when an import statement at the start of some
      line spells it. */
  lemma ReferencedIffImportStatement(source: string, name: string)
    ensures name in ReferencedClasses(source) <==> exists p: nat :: ImportStatementAt(source, p, name)
  {
    FindAllFindsEveryMatch(source, 0, name);
    forall p: nat
      ensures FoundAt(source, p, name) <==> ImportStatementAt(source, p, name)
    {
      FoundIffStatement(source, p, name);
    }
    assert FoundFrom(source, 0, name) <==> exists p: nat :: FoundAt(source, p, name);
  }

  // ---------------------------------------------------------------------------
  // What the pattern does with typical lines
  // ---------------------------------------------------------------------------

  /** A name made of name characters holds no terminator. */
  lemma NoTerminatorInName(t: string, q: nat, e: nat)
    requires q < e < |t| && (forall i :: q <= i < e ==> IsPathChar(t[i]))
    requires t[e] == ';' || t[e] == '.'
    ensures forall j :: q <= j < e ==> !Terminates(t[j..])
  {
    forall j | q <= j < e
      ensures !Terminates(t[j..])
    {
      assert t[j..][0] == t[j];
      if j + 1 < e {
        assert t[j..][1] == t[j + 1];
      } else {
        assert t[j..][1] == t[e];
      }
    }
  }

  /** `import <name>;` is matched, with the whole name as the group. */
  lemma PlainImportMatches(name: string, rest: string)
    requires name != [] && forall i :: 0 <= i < |name| ==> IsPathChar(name[i])
    ensures MatchText("import " + name + ";" + rest) == Some(ImportMatch(name, 7, 8 + |name|))
  {
    var t := "import " + name + ";" + rest;
    var e := 7 + |name|;
    assert t[..6] == "import";
    assert t[7..e] == name;
    assert t[e] == ';';
    NoTerminatorInName(t, 7, e);
    assert IsImportStatement(t, 7, e);
    MatchTextComplete(t, 7, e);
  }

  /** `import <name>.*;` is matched, with the package name, without `.*`, as the group. */
  lemma WildcardImportMatches(name: string, rest: string)
    requires name != [] && forall i :: 0 <= i < |name| ==> IsPathChar(name[i])
    ensures MatchText("import " + name + ".*;" + rest) == Some(ImportMatch(name, 7, 10 + |name|))
  {
    var t := "import " + name + ".*;" + rest;
    var e := 7 + |name|;
    assert t[..6] == "import";
    assert t[7..e] == name;
    assert t[e..e + 3] == ".*;";
    assert t[e..][..3] == ".*;";
    NoTerminatorInName(t, 7, e);
    assert IsImportStatement(t, 7, e);
    MatchTextComplete(t, 7, e);
  }

  /** The lazy group fails when the name characters run out before a terminator. */
  lemma {:induction false} LazyNameRunsOut(t: string, q: nat, e: nat, end: nat)
    requires q < e <= end < |t|
    requires forall i :: e <= i < end ==> IsPathChar(t[i])
    requires forall j :: e <= j <= end ==> !Terminates(t[j..])
    requires !IsPathChar(t[end])
    ensures LazyName(t, q, e).None?
    decreases end - e
  {
    if e < end {
      LazyNameRunsOut(t, q, e + 1, end);
    }
  }

  /** `import static ...` is never matched: the group cannot cross the blank after
      `static`. */
  lemma StaticImportIgnored(rest: string)
    ensures MatchText("import static " + rest) == None
  {
    var t := "import static " + rest;
    assert t[..6] == "import";
    SpaceRunExact(t, 6, 7);
    forall j | 8 <= j <= 13
      ensures !Terminates(t[j..])
    {
      assert t[j..][0] == t[j];
    }
    LazyNameRunsOut(t, 7, 8, 13);
  }

  /** Without a line feed from position `p - 1` on, no later position is a line start,
      so `findall` finds nothing more. */
  lemma {:induction false} NoLineNoMore(s: string, p: nat)
    requires 0 < p <= |s|
    requires forall i :: p - 1 <= i < |s| ==> s[i] != '\n'
    ensures FindAll(s, p) == []
    decreases |s| - p
  {
    if p < |s| {
      assert !LineStart(s, p);
      FindAllAtMiss(s, p, "");
      NoLineNoMore(s, p + 1);
      assert FindAll(s, p) == FindAll(s, p + 1);
    }
  }

  /** A single import line references exactly the name it imports. */
  lemma SingleImportLine(name: string, rest: string)
    requires name != [] && forall i :: 0 <= i < |name| ==> IsPathChar(name[i])
    requires forall i :: 0 <= i < |rest| ==> rest[i] != '\n'
    ensures ReferencedClasses("import " + name + ";" + rest) == [name]
  {
    var s := "import " + name + ";" + rest;
    PlainImportMatches(name, rest);
    assert Found(s, 0) == Some(ImportMatch(name, 7, 8 + |name|));
    forall i | 8 + |name| - 1 <= i < |s|
      ensures s[i] != '\n'
    {
      if i == 7 + |name| {
        assert s[i] == ';';
      } else {
        assert s[i] == rest[i - 8 - |name|];
      }
    }
    NoLineNoMore(s, 8 + |name|);
    assert FindAll(s, 0) == [name] + FindAll(s, 8 + |name|);
    assert Dedup([name]) == Dedup([]) + [name];
  }

  // ---------------------------------------------------------------------------
  // Texts without import lines
  // ---------------------------------------------------------------------------

  /** No line of the text starts with `import`. */
  predicate NoImportLine(s: string)
  {
    forall p :: 0 <= p < |s| && LineStart(s, p) ==> !StartsWith(s[p..], "import")
  }

  /** A text in which no line starts with `import` references no class. */
  lemma NoImportLineNoReferences(s: string)
    requires NoImportLine(s)
    ensures ReferencedClasses(s) == []
  {
    NoImportLineFindsNothing(s, 0);
  }

  lemma {:induction false} NoImportLineFindsNothing(s: string, p: nat)
    requires p <= |s| && NoImportLine(s)
    ensures FindAll(s, p) == []
    decreases |s| - p
  {
    if p < |s| {
      assert Found(s, p).None?;
      NoImportLineFindsNothing(s, p + 1);
    }
  }

  /** One line of text: a line feed at its end and nowhere else, and no `import` in
      front. */
  predicate OneLine(l: string)
  {
    l != [] && l[|l| - 1] == '\n' && '\n' !in l[..|l| - 1] && !StartsWith(l, "import")
  }

  /** The only line start inside one line is its front. */
  lemma OneLineNoImportLine(l: string)
    requires OneLine(l)
    ensures NoImportLine(l)
  {
    assert forall j :: 0 <= j < |l| - 1 ==> l[..|l| - 1][j] == l[j];
  }

  /** A text ending with a line feed, laid in front of another, keeps both free of
      import lines: no match can reach across the line feed. */
  lemma NoImportLineAppend(a: string, b: string)
    requires NoImportLine(a) && NoImportLine(b)
    requires a != [] && a[|a| - 1] == '\n'
    ensures NoImportLine(a + b)
  {
    var s := a + b;
    forall p | 0 <= p < |s| && LineStart(s, p)
      ensures !StartsWith(s[p..], "import")
    {
      if p < |a| {
        assert p > 0 ==> s[p - 1] == a[p - 1];
        assert LineStart(a, p);
        if |a| - p >= 6 {
          assert s[p..][..6] == a[p..][..6];
        } else {
          assert s[p..][|a| - 1 - p] == '\n';
          assert forall k :: 0 <= k < 6 ==> "import"[k] != '\n';
        }
      } else {
        assert s[p..] == b[p - |a|..];
        assert p > |a| ==> s[p - 1] == b[p - |a| - 1];
        assert LineStart(b, p - |a|);
      }
    }
  }

  /** Lines joined by line feeds hold no import line. */
  lemma {:induction false} JoinedLinesNoImportLine(ls: seq<string>)
    requires forall i :: 0 <= i < |ls| ==> OneLine(ls[i])
    ensures NoImportLine(Join(ls, "\n"))
    decreases |ls|
  {
    if |ls| == 1 {
      OneLineNoImportLine(ls[0]);
    } else if |ls| > 1 {
      OneLineNoImportLine(ls[0]);
      OneLineNoImportLine("\n");
      JoinedLinesNoImportLine(ls[1..]);
      NoImportLineAppend(ls[0], "\n");
      NoImportLineAppend(ls[0] + "\n", Join(ls[1..], "\n"));
    }
  }
}
