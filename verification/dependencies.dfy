/**
 * Reading the text report of `mvn dependency:tree -Dverbose` into dependency
 * coordinates, and locating a coordinate's archive in the local repository
 * (`MavenMultiModule.parse_dependency_line`, `parse_dependency_output` and
 * `SourceScanner.build_jar_path`).
 */
module Dependencies {
  import opened Wrappers
  import opened PyText

  /** The local repository the archives are looked up in. */
  const CustomRepo := "/Users/cyc/Documents/repo/lib"

  /** A dependency as the scanner keeps it: group, artifact and version. */
  datatype Coordinate = Coordinate(group: string, artifact: string, version: string)

  /** The text of a report line after its last "+- " marker, then after the last
      "\- " marker in what remains. */
  function AfterMarkers(line: string): string
  {
    var afterBranch := Split(line, "+- ");
    var afterLast := Split(afterBranch[|afterBranch| - 1], "\\- ");
    afterLast[|afterLast| - 1]
  }

  /** The colon-separated fields of a report line: the text after the markers,
      stripped, split at ':'. */
  function Fields(line: string): (r: seq<string>)
    ensures |r| >= 1
  {
    Split(Strip(AfterMarkers(line)), ":")
  }

  /** One line of the report read as a dependency, or `None` when the line is not
      an `[INFO]` line, has fewer than five fields, or names no usable version. */
  function ParseDependencyLine(line: string): (r: Option<Coordinate>)
    ensures r.Some? ==> StartsWith(Strip(line), "[INFO]")
    ensures r.Some? ==> |Fields(line)| >= 5
    ensures r.Some? ==> r.value.version != [] && !Contains(r.value.version, "${")
    ensures r.None? <==> !StartsWith(Strip(line), "[INFO]") || |Fields(line)| < 5
                         || Fields(line)[3] == [] || Contains(Fields(line)[3], "${")
    ensures r.Some? ==> r.value == Coordinate(Fields(line)[0], Fields(line)[1], Fields(line)[3])
  {
    if !StartsWith(Strip(line), "[INFO]") then None
    else
      var parts := Fields(line);
      if |parts| < 5 then None
      else if Contains(parts[3], "${") || parts[3] == [] then None
      else Some(Coordinate(parts[0], parts[1], parts[3]))
  }

  /** Lines the report reader passes over without looking at them: plugin banners
      and the build summary. */
  predicate Skipped(line: string)
  {
    Contains(line, "[INFO] ---") || Contains(line, "BUILD")
  }

  /** What one line of the report contributes. */
  function LineDependencies(line: string): (r: set<Coordinate>)
    ensures |r| <= 1
  {
    if Skipped(line) then {}
    else match ParseDependencyLine(line)
      case Some(c) => {c}
      case None => {}
  }

  /** The union of `f` over a sequence. */
  function UnionOf<A, B>(xs: seq<A>, f: A -> set<B>): set<B>
  {
    if xs == [] then {} else UnionOf(xs[..|xs| - 1], f) + f(xs[|xs| - 1])
  }

  lemma {:induction false} UnionOfMembers<A, B>(xs: seq<A>, f: A -> set<B>, b: B)
    ensures b in UnionOf(xs, f) <==> exists k :: 0 <= k < |xs| && b in f(xs[k])
    decreases |xs|
  {
    if xs != [] {
      var init := xs[..|xs| - 1];
      UnionOfMembers(init, f, b);
      if exists k :: 0 <= k < |init| && b in f(init[k]) {
        var k :| 0 <= k < |init| && b in f(init[k]);
        assert xs[k] == init[k];
      }
      if exists k :: 0 <= k < |xs| && b in f(xs[k]) {
        var k :| 0 <= k < |xs| && b in f(xs[k]);
        if k < |init| {
          assert init[k] == xs[k];
        }
      }
    }
  }

  lemma UnionOfPrefixStep<A, B>(xs: seq<A>, k: nat, f: A -> set<B>)
    requires k < |xs|
    ensures UnionOf(xs[..k + 1], f) == UnionOf(xs[..k], f) + f(xs[k])
  {
    assert xs[..k + 1][..k] == xs[..k];
  }

  lemma {:induction false} UnionOfAppend<A, B>(xs: seq<A>, ys: seq<A>, f: A -> set<B>)
    ensures UnionOf(xs + ys, f) == UnionOf(xs, f) + UnionOf(ys, f)
    decreases |ys|
  {
    if ys == [] {
      assert xs + ys == xs;
    } else {
      assert (xs + ys)[..|xs + ys| - 1] == xs + ys[..|ys| - 1];
      UnionOfAppend(xs, ys[..|ys| - 1], f);
    }
  }

  /** The dependencies a report names: the union of what its lines contribute. */
  function DependencySet(output: string): set<Coordinate>
  {
    UnionOf(Split(output, "\n"), LineDependencies)
  }

  /** The dependencies of two texts joined by a line break are those of each: the
      reader treats lines independently. */
  lemma DependencySetOfLines(a: string, b: string)
    ensures DependencySet(a + "\n" + b) == DependencySet(a) + DependencySet(b)
  {
    SplitConcatChar(a, '\n', b);
    UnionOfAppend(Split(a, "\n"), Split(b, "\n"), LineDependencies);
  }

  /** Reads a whole report: each dependency once, in order of first appearance. */
  method ParseDependencyOutput(output: string) returns (deps: seq<Coordinate>)
    ensures forall c :: c in deps <==> c in DependencySet(output)
    ensures forall i, j :: 0 <= i < j < |deps| ==> deps[i] != deps[j]
  {
    var lines := Split(output, "\n");
    deps := [];
    var seen: set<Coordinate> := {};
    var k := 0;
    while k < |lines|
      invariant 0 <= k <= |lines|
      invariant seen == UnionOf(lines[..k], LineDependencies)
      invariant forall c :: c in deps <==> c in seen
      invariant forall i, j :: 0 <= i < j < |deps| ==> deps[i] != deps[j]
    {
      UnionOfPrefixStep(lines, k, LineDependencies);
      deps, seen := AddLine(lines[k], deps, seen);
      k := k + 1;
    }
    assert lines[..k] == lines;
  }

  /** One pass of the report reader's loop: a line that is not passed over and
      parses adds its coordinate, once. */
  method AddLine(line: string, deps: seq<Coordinate>, seen: set<Coordinate>)
    returns (deps': seq<Coordinate>, seen': set<Coordinate>)
    requires forall c :: c in deps <==> c in seen
    requires forall i, j :: 0 <= i < j < |deps| ==> deps[i] != deps[j]
    ensures seen' == seen + LineDependencies(line)
    ensures |deps| <= |deps'| <= |deps| + 1 && deps'[..|deps|] == deps
    ensures forall c :: c in deps' <==> c in seen'
    ensures forall i, j :: 0 <= i < j < |deps'| ==> deps'[i] != deps'[j]
  {
    deps', seen' := deps, seen;
    if !Skipped(line) {
      var parsed := ParseDependencyLine(line);
      if parsed.Some? && parsed.value !in seen {
        deps' := deps + [parsed.value];
      }
      if parsed.Some? {
        seen' := seen + {parsed.value};
      }
    }
  }

  // ---------------------------------------------------------------------------
  // The lines the dependency-tree report prints
  // ---------------------------------------------------------------------------

  /** Characters a field of a dependency line may hold: anything but the field
      separator, the branch-marker characters, a bracket or a line break. */
  predicate IsFieldChar(c: char)
  {
    c != ':' && c != '+' && c != '\\' && c != '[' && c != '\n'
  }

  predicate IsField(s: string)
  {
    |s| > 0 && forall i :: 0 <= i < |s| ==> IsFieldChar(s[i])
  }

  /** A dependency line of the tree report: tree-drawing indentation, the branch
      marker ("\- " for the last child, "+- " otherwise), and the colon-separated
      group, artifact, packaging, version and scope; the scope field carries any
      trailing remark the report adds. */
  datatype TreeEntry = TreeEntry(indent: string, last: bool, coordinate: Coordinate, packaging: string, scope: string)

  predicate WellFormedEntry(e: TreeEntry)
  {
    && (forall i :: 0 <= i < |e.indent| ==> e.indent[i] == '|' || e.indent[i] == ' ')
    && IsField(e.coordinate.group) && IsField(e.coordinate.artifact) && IsField(e.coordinate.version)
    && IsField(e.packaging) && IsField(e.scope)
    && !IsSpace(e.coordinate.group[0]) && !IsSpace(e.scope[|e.scope| - 1])
    && '$' !in e.coordinate.version
  }

  function Marker(last: bool): string
  {
    if last then "\\- " else "+- "
  }

  /** The five fields of an entry, in report order. */
  function EntryFields(e: TreeEntry): seq<string>
  {
    [e.coordinate.group, e.coordinate.artifact, e.packaging, e.coordinate.version, e.scope]
  }

  /** The colon-separated fields of an entry. */
  function EntryBody(e: TreeEntry): string
  {
    Join(EntryFields(e), ":")
  }

  /** The text before an entry's body. */
  function EntryPrefix(e: TreeEntry): string
  {
    "[INFO] " + e.indent + Marker(e.last)
  }

  function EntryText(e: TreeEntry): string
  {
    EntryPrefix(e) + EntryBody(e)
  }

  /** A report line as the tree report prints a dependency: `[INFO] `, tree
      indentation, a branch marker, and colon-separated fields. */
  function MarkedLine(indent: string, last: bool, fields: seq<string>): string
  {
    "[INFO] " + indent + Marker(last) + Join(fields, ":")
  }

  /** Tree indentation, and fields with no blank at the two ends of the line. */
  predicate WellFormedLine(indent: string, fields: seq<string>)
  {
    && (forall i :: 0 <= i < |indent| ==> indent[i] == '|' || indent[i] == ' ')
    && |fields| >= 1 && (forall k :: 0 <= k < |fields| ==> IsField(fields[k]))
    && !IsSpace(fields[0][0]) && !IsSpace(fields[|fields| - 1][|fields[|fields| - 1]| - 1])
  }

  /** Where characters of a marked line can come from. */
  lemma MarkedLineChars(indent: string, fields: seq<string>)
    requires WellFormedLine(indent, fields)
    ensures var pre := "[INFO] " + indent;
            forall i :: 0 <= i < |pre| ==> pre[i] != '+' && pre[i] != '\\' && pre[i] != '\n' && (i > 0 ==> pre[i] != '[')
    ensures var body := Join(fields, ":");
            forall i :: 0 <= i < |body| ==> body[i] == ':' || IsFieldChar(body[i])
    ensures var body := Join(fields, ":");
            body != [] && !IsSpace(body[0]) && !IsSpace(body[|body| - 1])
  {
    var pre := "[INFO] " + indent;
    forall i | 0 <= i < |pre|
      ensures pre[i] != '+' && pre[i] != '\\' && pre[i] != '\n' && (i > 0 ==> pre[i] != '[')
    {
      if i >= 7 {
        assert pre[i] == indent[i - 7];
      }
    }
    var body := Join(fields, ":");
    JoinChars(fields, ":", (c: char) => c == ':' || IsFieldChar(c));
    JoinEndsWithLast(fields, ":");
    if |fields| > 1 {
      assert body == fields[0] + ":" + Join(fields[1..], ":");
    }
  }

  /** A marked line passes the `[INFO]` test. */
  lemma MarkedLineIsInfoLine(indent: string, last: bool, fields: seq<string>)
    requires WellFormedLine(indent, fields)
    ensures StartsWith(Strip(MarkedLine(indent, last, fields)), "[INFO]")
  {
    var line := MarkedLine(indent, last, fields);
    var body := Join(fields, ":");
    MarkedLineChars(indent, fields);
    assert line[|line| - 1] == body[|body| - 1];
    StripUnchanged(line);
    assert line[..6] == "[INFO]";
  }

  /** Removing the markers of a marked line leaves its joined fields. */
  lemma MarkedLineMarkersRemoved(indent: string, last: bool, fields: seq<string>)
    requires WellFormedLine(indent, fields)
    ensures AfterMarkers(MarkedLine(indent, last, fields)) == Join(fields, ":")
  {
    var prefix := "[INFO] " + indent;
    var body := Join(fields, ":");
    MarkedLineChars(indent, fields);
    assert '+' !in prefix && '\\' !in prefix;
    assert '+' !in body && '\\' !in body;
    BehindMarker(prefix, last, body);
  }

  /** Behind either branch marker, only the text after the marker survives. */
  lemma BehindMarker(prefix: string, last: bool, body: string)
    requires '+' !in prefix && '\\' !in prefix && '+' !in body && '\\' !in body
    ensures AfterMarkers(prefix + Marker(last) + body) == body
  {
    if last {
      LastChildMarker(prefix, body);
    } else {
      MiddleChildMarker(prefix, body);
    }
  }

  /** A marked line passes the `[INFO]` test, and its fields are the printed ones,
      however many there are. */
  lemma MarkedLineFields(indent: string, last: bool, fields: seq<string>)
    requires WellFormedLine(indent, fields)
    ensures StartsWith(Strip(MarkedLine(indent, last, fields)), "[INFO]")
    ensures Fields(MarkedLine(indent, last, fields)) == fields
  {
    MarkedLineIsInfoLine(indent, last, fields);
    MarkedLineMarkersRemoved(indent, last, fields);
    MarkedLineChars(indent, fields);
    StripUnchanged(Join(fields, ":"));
    forall k | 0 <= k < |fields|
      ensures ':' !in fields[k]
    {
      assert IsField(fields[k]);
    }
    SplitJoinChar(fields, ':');
  }

  /** A dependency printed with a classifier, `group:artifact:packaging:classifier:version:scope`,
      is read with the classifier in the version's place: the sixth field is never looked at. */
  lemma ClassifierReadAsVersion(indent: string, last: bool, g: string, a: string, p: string,
                                c: string, v: string, s: string)
    requires WellFormedLine(indent, [g, a, p, c, v, s]) && '$' !in c
    ensures ParseDependencyLine(MarkedLine(indent, last, [g, a, p, c, v, s])) == Some(Coordinate(g, a, c))
  {
    MarkedLineFields(indent, last, [g, a, p, c, v, s]);
    LacksFirstChar(c, "${");
  }

  /** An entry line is the marked line of its five fields. */
  lemma EntryIsMarkedLine(e: TreeEntry)
    requires WellFormedEntry(e)
    ensures EntryText(e) == MarkedLine(e.indent, e.last, EntryFields(e))
    ensures WellFormedLine(e.indent, EntryFields(e))
  {
    assert forall k :: 0 <= k < 5 ==> IsField(EntryFields(e)[k]);
  }

  /** Where characters of an entry line can come from. */
  lemma EntryChars(e: TreeEntry)
    requires WellFormedEntry(e)
    ensures var pre := "[INFO] " + e.indent;
            forall i :: 0 <= i < |pre| ==> pre[i] != '+' && pre[i] != '\\' && pre[i] != '\n' && (i > 0 ==> pre[i] != '[')
    ensures forall i :: 0 <= i < |EntryBody(e)| ==> EntryBody(e)[i] == ':' || IsFieldChar(EntryBody(e)[i])
    ensures EntryBody(e) != [] && !IsSpace(EntryBody(e)[0]) && !IsSpace(EntryBody(e)[|EntryBody(e)| - 1])
  {
    EntryIsMarkedLine(e);
    MarkedLineChars(e.indent, EntryFields(e));
  }

  /** The text after the branch marker of an entry line is the entry's body. */
  lemma EntryMarkersRemoved(e: TreeEntry)
    requires WellFormedEntry(e)
    ensures AfterMarkers(EntryText(e)) == EntryBody(e)
  {
    var prefix := "[INFO] " + e.indent;
    var body := EntryBody(e);
    EntryChars(e);
    assert '+' !in prefix && '\\' !in prefix;
    assert '+' !in body && '\\' !in body;
    if e.last {
      assert EntryText(e) == prefix + "\\- " + body;
      LastChildMarker(prefix, body);
    } else {
      assert EntryText(e) == prefix + "+- " + body;
      MiddleChildMarker(prefix, body);
    }
  }

  /** Behind a last-child marker, only the text after the marker survives. */
  lemma LastChildMarker(prefix: string, body: string)
    requires '+' !in prefix && '\\' !in prefix && '+' !in body && '\\' !in body
    ensures AfterMarkers(prefix + "\\- " + body) == body
  {
    var line := prefix + "\\- " + body;
    assert '+' !in line by {
      assert line == prefix + ("\\- " + body);
    }
    WithoutMarker(line, "+- ");
    SplitAtMarker(prefix, "\\- ", body);
    WithoutMarker(body, "\\- ");
  }

  /** Behind a middle-child marker, only the text after the marker survives. */
  lemma MiddleChildMarker(prefix: string, body: string)
    requires '+' !in prefix && '\\' !in prefix && '+' !in body && '\\' !in body
    ensures AfterMarkers(prefix + "+- " + body) == body
  {
    SplitAtMarker(prefix, "+- ", body);
    WithoutMarker(body, "+- ");
    WithoutMarker(body, "\\- ");
  }

  /** A text without a marker's first character is one piece. */
  lemma WithoutMarker(s: string, marker: string)
    requires marker == "+- " || marker == "\\- "
    requires marker[0] !in s
    ensures Split(s, marker) == [s]
  {
    LacksFirstChar(s, marker);
    SplitWithoutSeparator(s, marker);
  }

  /** A marker behind a text free of the marker's first character splits there. */
  lemma SplitAtMarker(prefix: string, marker: string, body: string)
    requires marker == "+- " || marker == "\\- "
    requires marker[0] !in prefix
    ensures Split(prefix + marker + body, marker) == [prefix] + Split(body, marker)
  {
    NotContainedBeforeShortTail(prefix, marker[..2], marker);
    SplitAtFirst(prefix, marker, body);
  }

  /** An entry line passes the `[INFO]` test. */
  lemma EntryIsInfoLine(e: TreeEntry)
    requires WellFormedEntry(e)
    ensures StartsWith(Strip(EntryText(e)), "[INFO]")
  {
    EntryIsMarkedLine(e);
    MarkedLineFields(e.indent, e.last, EntryFields(e));
  }

  /** The fields of an entry line are the entry's five fields. */
  lemma EntryLineFields(e: TreeEntry)
    requires WellFormedEntry(e)
    ensures Fields(EntryText(e)) == EntryFields(e)
  {
    EntryIsMarkedLine(e);
    MarkedLineFields(e.indent, e.last, EntryFields(e));
  }

  /** Every well-formed dependency line of the report reads back as its coordinate. */
  lemma EntryParses(e: TreeEntry)
    requires WellFormedEntry(e)
    ensures ParseDependencyLine(EntryText(e)) == Some(e.coordinate)
  {
    EntryIsInfoLine(e);
    EntryLineFields(e);
    LacksFirstChar(e.coordinate.version, "${");
  }

  /** An entry line is never passed over as a banner line. */
  lemma EntryNotBanner(e: TreeEntry)
    requires WellFormedEntry(e)
    ensures !Contains(EntryText(e), "[INFO] ---")
  {
    var line := EntryText(e);
    var t := "[INFO] ---";
    var body := EntryBody(e);
    var prefix := "[INFO] " + e.indent;
    EntryChars(e);
    assert line == prefix + (Marker(e.last) + body);
    forall i | 0 <= i <= |line| - |t|
      ensures !OccursAt(line, t, i)
    {
      if i == 0 {
        assert line[7] != '-' by {
          if |e.indent| > 0 {
            assert line[7] == prefix[7];
          } else {
            assert line[7] == Marker(e.last)[0];
          }
        }
        assert line[i..i + |t|][7] == line[7];
      } else {
        assert line[i] != '[' by {
          if i >= |prefix| + 3 {
            assert line[i] == body[i - |prefix| - 3];
          } else if i >= |prefix| {
            assert line[i] == Marker(e.last)[i - |prefix|];
          } else {
            assert line[i] == prefix[i];
          }
        }
        assert line[i..i + |t|][0] == line[i];
      }
    }
    ContainsIffWindow(line, t);
  }

  /** No entry line holds a line break. */
  lemma EntryHasNoBreak(e: TreeEntry)
    requires WellFormedEntry(e)
    ensures '\n' !in EntryText(e)
  {
    var body := EntryBody(e);
    var prefix := "[INFO] " + e.indent;
    EntryChars(e);
    assert EntryText(e) == prefix + Marker(e.last) + body;
  }

  /** The report printed for a list of entries, one line each. */
  function ReportText(entries: seq<TreeEntry>): string
  {
    Join(seq(|entries|, k requires 0 <= k < |entries| => EntryText(entries[k])), "\n")
  }

  /** The lines of a report are its entries' lines. */
  lemma ReportLines(entries: seq<TreeEntry>)
    requires |entries| >= 1 && forall k :: 0 <= k < |entries| ==> WellFormedEntry(entries[k])
    ensures Split(ReportText(entries), "\n") == seq(|entries|, k requires 0 <= k < |entries| => EntryText(entries[k]))
  {
    var lines := seq(|entries|, k requires 0 <= k < |entries| => EntryText(entries[k]));
    forall k | 0 <= k < |lines|
      ensures '\n' !in lines[k]
    {
      EntryHasNoBreak(entries[k]);
    }
    SplitJoinChar(lines, '\n');
  }

  /** The dependencies read from a report made of entry lines are exactly the
      coordinates of the entries whose line does not mention "BUILD". */
  lemma ReportDependencies(entries: seq<TreeEntry>)
    requires |entries| >= 1 && forall k :: 0 <= k < |entries| ==> WellFormedEntry(entries[k])
    ensures DependencySet(ReportText(entries))
         == set e | e in entries && !Contains(EntryText(e), "BUILD") :: e.coordinate
  {
    ReportLines(entries);
    forall c | c in DependencySet(ReportText(entries))
      ensures exists e :: e in entries && !Contains(EntryText(e), "BUILD") && e.coordinate == c
    {
      ReportNamesOnlyEntries(entries, c);
    }
    forall e | e in entries && !Contains(EntryText(e), "BUILD")
      ensures e.coordinate in DependencySet(ReportText(entries))
    {
      ReportNamesEveryEntry(entries, e);
    }
  }

  /** What an entry line contributes: its coordinate, unless the line mentions "BUILD". */
  lemma EntryContribution(e: TreeEntry)
    requires WellFormedEntry(e)
    ensures LineDependencies(EntryText(e)) == if Contains(EntryText(e), "BUILD") then {} else {e.coordinate}
  {
    EntryParses(e);
    EntryNotBanner(e);
  }

  /** Every dependency read from a report of entries is the coordinate of one of them. */
  lemma ReportNamesOnlyEntries(entries: seq<TreeEntry>, c: Coordinate)
    requires |entries| >= 1 && forall k :: 0 <= k < |entries| ==> WellFormedEntry(entries[k])
    requires Split(ReportText(entries), "\n") == seq(|entries|, k requires 0 <= k < |entries| => EntryText(entries[k]))
    requires c in DependencySet(ReportText(entries))
    ensures exists e :: e in entries && !Contains(EntryText(e), "BUILD") && e.coordinate == c
  {
    var lines := seq(|entries|, k requires 0 <= k < |entries| => EntryText(entries[k]));
    UnionOfMembers(lines, LineDependencies, c);
    var k :| 0 <= k < |lines| && c in LineDependencies(lines[k]);
    var e := entries[k];
    assert lines[k] == EntryText(e);
    EntryContribution(e);
    assert e in entries;
  }

  /** Every entry whose line does not mention "BUILD" is read from the report. */
  lemma ReportNamesEveryEntry(entries: seq<TreeEntry>, e: TreeEntry)
    requires |entries| >= 1 && forall k :: 0 <= k < |entries| ==> WellFormedEntry(entries[k])
    requires Split(ReportText(entries), "\n") == seq(|entries|, k requires 0 <= k < |entries| => EntryText(entries[k]))
    requires e in entries && !Contains(EntryText(e), "BUILD")
    ensures e.coordinate in DependencySet(ReportText(entries))
  {
    var lines := seq(|entries|, k requires 0 <= k < |entries| => EntryText(entries[k]));
    var k :| 0 <= k < |entries| && entries[k] == e;
    EntryContribution(e);
    assert lines[k] == EntryText(e);
    UnionOfMembers(lines, LineDependencies, e.coordinate);
  }

  /** A dependency whose version mentions "BUILD" (a `*.BUILD-SNAPSHOT` release, say)
      is passed over together with its line. */
  lemma BuildVersionDropped(e: TreeEntry)
    requires Contains(e.coordinate.version, "BUILD")
    ensures Skipped(EntryText(e))
  {
    var f := EntryFields(e);
    var before := EntryPrefix(e) + Join(f[..3], ":") + ":";
    var after := ":" + e.scope;
    assert f == f[..3] + [e.coordinate.version, e.scope];
    JoinAppend(f[..3], [e.coordinate.version, e.scope], ":");
    assert EntryText(e) == before + e.coordinate.version + after;
    ContainsInside(before, e.coordinate.version, after, "BUILD");
  }

  /** The line the report prints for the project itself: four fields, no scope. */
  function RootText(g: string, a: string, p: string, v: string): string
  {
    "[INFO] " + Join([g, a, p, v], ":")
  }

  /** The project's own root line names no dependency. */
  lemma RootLineIgnored(g: string, a: string, p: string, v: string)
    requires IsField(g) && IsField(a) && IsField(p) && IsField(v) && !IsSpace(v[|v| - 1])
    ensures ParseDependencyLine(RootText(g, a, p, v)) == None
  {
    var line := RootText(g, a, p, v);
    RootLineChars(g, a, p, v);
    UnmarkedFields(line);
    assert Join(["[INFO] " + g, a, p, v], ":") == line;
    SplitJoinChar(["[INFO] " + g, a, p, v], ':');
    assert |Fields(line)| == 4;
  }

  /** A line with no branch markers and no surrounding blanks is split into fields
      as it stands. */
  lemma UnmarkedFields(line: string)
    requires '+' !in line && '\\' !in line
    requires line != [] && !IsSpace(line[0]) && !IsSpace(line[|line| - 1])
    ensures Fields(line) == Split(line, ":")
  {
    WithoutMarker(line, "+- ");
    WithoutMarker(line, "\\- ");
    assert AfterMarkers(line) == line;
    StripUnchanged(line);
  }

  lemma RootLineChars(g: string, a: string, p: string, v: string)
    requires IsField(g) && IsField(a) && IsField(p) && IsField(v) && !IsSpace(v[|v| - 1])
    ensures var line := RootText(g, a, p, v);
            && '+' !in line && '\\' !in line
            && !IsSpace(line[0]) && !IsSpace(line[|line| - 1])
            && ':' !in "[INFO] " + g && ':' !in a && ':' !in p && ':' !in v
  {
    var parts := [g, a, p, v];
    var body := Join(parts, ":");
    var line := RootText(g, a, p, v);
    assert forall k :: 0 <= k < |parts| ==> IsField(parts[k]);
    JoinChars(parts, ":", (c: char) => c == ':' || IsFieldChar(c));
    forall i | 0 <= i < |line|
      ensures line[i] != '+' && line[i] != '\\'
    {
      if i >= 7 {
        assert line[i] == body[i - 7];
      }
    }
    JoinEndsWithLast(parts, ":");
    assert line[|line| - 1] == v[|v| - 1];
    var first := "[INFO] " + g;
    forall i | 0 <= i < |first|
      ensures first[i] != ':'
    {
      if i >= 7 {
        assert first[i] == g[i - 7];
      }
    }
  }


  /** The entry a verbose report prints for a dependency it omits as a duplicate:
      the whole coordinate in parentheses, followed by a remark. */
  function OmittedEntry(e: TreeEntry): TreeEntry
  {
    TreeEntry(e.indent, e.last,
      Coordinate("(" + e.coordinate.group, e.coordinate.artifact, e.coordinate.version),
      e.packaging, e.scope + " - omitted for duplicate)")
  }

  /** An omitted duplicate, printed as "(g:a:jar:v:compile - omitted for duplicate)",
      is read with the opening parenthesis kept in the group. */
  lemma OmittedEntryKeepsParenthesis(e: TreeEntry)
    requires WellFormedEntry(e)
    ensures EntryText(OmittedEntry(e)) == EntryPrefix(e) + "(" + EntryBody(e) + " - omitted for duplicate)"
    ensures ParseDependencyLine(EntryText(OmittedEntry(e)))
         == Some(Coordinate("(" + e.coordinate.group, e.coordinate.artifact, e.coordinate.version))
  {
    OmittedEntryText(e);
    OmittedEntryWellFormed(e);
    EntryParses(OmittedEntry(e));
  }

  lemma OmittedEntryText(e: TreeEntry)
    ensures EntryText(OmittedEntry(e)) == EntryPrefix(e) + "(" + EntryBody(e) + " - omitted for duplicate)"
  {
    var remark := " - omitted for duplicate)";
    var parts := EntryFields(e);
    var wrapped := [['('] + parts[0]] + parts[1..];
    JoinConsChar('(', parts, ":");
    JoinExtendLast(wrapped, ":", remark);
    assert wrapped[..4] + [wrapped[4] + remark] == EntryFields(OmittedEntry(e));
  }

  lemma OmittedEntryWellFormed(e: TreeEntry)
    requires WellFormedEntry(e)
    ensures WellFormedEntry(OmittedEntry(e))
  {
    OpenedFieldIsField(e.coordinate.group);
    RemarkedFieldIsField(e.scope);
  }

  /** A field with an opening parenthesis in front is still a field. */
  lemma OpenedFieldIsField(f: string)
    requires IsField(f)
    ensures IsField("(" + f) && !IsSpace(("(" + f)[0])
  {
    assert forall i :: 1 <= i < |"(" + f| ==> ("(" + f)[i] == f[i - 1];
  }

  /** A field with the duplicate remark behind it is still a field, ending in `)`. */
  lemma RemarkedFieldIsField(f: string)
    requires IsField(f)
    ensures var r := f + " - omitted for duplicate)";
            IsField(r) && r[|r| - 1] == ')'
  {
    var remark := " - omitted for duplicate)";
    var r := f + remark;
    assert forall i :: 0 <= i < |f| ==> r[i] == f[i];
    assert forall i :: |f| <= i < |r| ==> r[i] == remark[i - |f|];
  }



  // ---------------------------------------------------------------------------
  // Archive paths
  // ---------------------------------------------------------------------------

  /** Where the archive of a dependency lies in the local repository. */
  function BuildJarPath(c: Coordinate): string
  {
    PathJoin(CustomRepo + "/" + Replace(c.group, ".", "/") + "/" + c.artifact + "/" + c.version,
             c.artifact + "-" + c.version + ".jar")
  }

  /** A coordinate none of whose fields holds a '/', so that each field stays within
      path components of its own. Any other character may occur: the parser passes
      on such groups as "(com.alibaba" from a verbose report. */
  predicate SlashFree(c: Coordinate)
  {
    '/' !in c.group && '/' !in c.artifact && '/' !in c.version
  }

  /** An archive's path relative to the repository. */
  function RelativeJarPath(c: Coordinate): string
  {
    Replace(c.group, ".", "/") + "/" + c.artifact + "/" + c.version + "/" + JarName(c)
  }

  function JarName(c: Coordinate): string
  {
    c.artifact + "-" + c.version + ".jar"
  }

  /** An archive lies under the repository, as long as the version does not end and
      the artifact does not start with a '/'. */
  lemma JarPathUnderRepository(c: Coordinate)
    requires c.version != [] && c.version[|c.version| - 1] != '/'
    requires c.artifact == [] || c.artifact[0] != '/'
    ensures BuildJarPath(c) == CustomRepo + "/" + RelativeJarPath(c)
  {
    var a := c.artifact;
    var pre := CustomRepo + "/" + Replace(c.group, ".", "/") + "/" + a + "/";
    assert JarName(c)[0] == if a == [] then '-' else a[0];
    JoinBelow(pre, c.version, JarName(c));
  }

  /** Joining onto a directory path that ends in a name puts one '/' between. */
  lemma JoinBelow(dir: string, last: string, file: string)
    requires last != [] && last[|last| - 1] != '/'
    requires file == [] || file[0] != '/'
    ensures PathJoin(dir + last, file) == dir + last + "/" + file
  {
    assert (dir + last)[|dir + last| - 1] == last[|last| - 1];
  }

  /** Every piece of a dot-separated group without '/' becomes one directory. */
  lemma GroupDirectorySegments(g: string)
    requires '/' !in g
    ensures Split(Replace(g, ".", "/"), "/") == Split(g, ".")
  {
    var parts := Split(g, ".");
    ReplaceIsJoinOfSplit(g, ".", "/");
    SplitPartsChars(g, ".", (ch: char) => ch != '/');
    SplitJoinChar(parts, '/');
  }

  /** The archive name of a coordinate whose fields hold no '/' holds none either. */
  lemma JarNameHasNoSlash(c: Coordinate)
    requires SlashFree(c)
    ensures '/' !in JarName(c)
  {
    var a, v, file := c.artifact, c.version, JarName(c);
    forall i | 0 <= i < |file|
      ensures file[i] != '/'
    {
      if i < |a| {
        assert file[i] == a[i];
      } else if i == |a| {
      } else if i < |a| + 1 + |v| {
        assert file[i] == v[i - |a| - 1];
      } else {
        assert file[i] == ".jar"[i - |a| - 1 - |v|];
      }
    }
  }

  /** The path components below the repository: one per dot-separated part of the
      group, then artifact, version and archive name. */
  lemma JarPathSegments(c: Coordinate)
    requires SlashFree(c)
    ensures Split(RelativeJarPath(c), "/") == Split(c.group, ".") + [c.artifact, c.version, JarName(c)]
  {
    var dir, a, v, file := Replace(c.group, ".", "/"), c.artifact, c.version, JarName(c);
    GroupDirectorySegments(c.group);
    JarNameHasNoSlash(c);
    ContainsChar(a, '/');
    SplitWithoutSeparator(a, "/");
    ContainsChar(v, '/');
    SplitWithoutSeparator(v, "/");
    ContainsChar(file, '/');
    SplitWithoutSeparator(file, "/");
    SplitConcatChar(dir + "/" + a + "/" + v, '/', file);
    SplitConcatChar(dir + "/" + a, '/', v);
    SplitConcatChar(dir, '/', a);
  }

  /** Different dependencies are looked up at different paths, as long as their
      fields hold no '/' and their versions are not empty. */
  lemma JarPathInjective(c1: Coordinate, c2: Coordinate)
    requires SlashFree(c1) && c1.version != []
    requires SlashFree(c2) && c2.version != []
    requires BuildJarPath(c1) == BuildJarPath(c2)
    ensures c1 == c2
  {
    JarPathUnderRepository(c1);
    JarPathUnderRepository(c2);
    var n := |CustomRepo| + 1;
    assert RelativeJarPath(c1) == BuildJarPath(c1)[n..] == BuildJarPath(c2)[n..] == RelativeJarPath(c2);
    JarPathSegments(c1);
    JarPathSegments(c2);
    var s1 := Split(c1.group, ".") + [c1.artifact, c1.version, JarName(c1)];
    var s2 := Split(c2.group, ".") + [c2.artifact, c2.version, JarName(c2)];
    assert s1 == s2;
    assert |Split(c1.group, ".")| == |Split(c2.group, ".")|;
    assert c1.artifact == s1[|s1| - 3] == s2[|s2| - 3] == c2.artifact;
    assert c1.version == s1[|s1| - 2] == s2[|s2| - 2] == c2.version;
    assert Split(c1.group, ".") == s1[..|s1| - 3] == s2[..|s2| - 3] == Split(c2.group, ".");
    JoinSplit(c1.group, ".");
    JoinSplit(c2.group, ".");
  }

  /** The first directory probed for an "omitted for duplicate" entry of a verbose
      report is the group's first part behind the parenthesis the parser leaves on
      it, a directory the repository's own layout never has. */
  lemma OmittedEntryProbesParenthesisedDirectory(e: TreeEntry)
    requires WellFormedEntry(e) && SlashFree(e.coordinate)
    ensures ParseDependencyLine(EntryText(OmittedEntry(e))) == Some(OmittedEntry(e).coordinate)
    ensures BuildJarPath(OmittedEntry(e).coordinate) == CustomRepo + "/" + RelativeJarPath(OmittedEntry(e).coordinate)
    ensures Split(RelativeJarPath(OmittedEntry(e).coordinate), "/")[0] == "(" + Split(e.coordinate.group, ".")[0]
  {
    var c := OmittedEntry(e).coordinate;
    var g := e.coordinate.group;
    OmittedEntryKeepsParenthesis(e);
    assert c.version[|c.version| - 1] in c.version;
    JarPathUnderRepository(c);
    JarPathSegments(c);
    assert ("(" + g)[1..] == g;
  }
}
