/**
 * The handful of Python string operations the program relies on, defined once
 * with Python's exact semantics over `seq<char>`: `str.strip`, `str.startswith`,
 * the `in` operator, `str.split(sep)`, `sep.join(...)`, `str.replace`,
 * `'x' * n` and `os.path.join` (POSIX, two arguments).
 */
module PyText {

  /** Python's whitespace set: the characters `str.isspace()`, `str.strip()` and the
      regular-expression class `\s` (for `str` patterns) all treat as whitespace. */
  predicate IsSpace(c: char)
  {
    var n := c as int;
    (9 <= n <= 13) || (28 <= n <= 32) || n == 0x85 || n == 0xA0 || n == 0x1680
    || (0x2000 <= n <= 0x200A) || n == 0x2028 || n == 0x2029 || n == 0x202F
    || n == 0x205F || n == 0x3000
  }

  /** The regular-expression class `\w`, restricted to ASCII letters, digits and `_`. */
  predicate IsWordChar(c: char)
  {
    ('a' <= c <= 'z') || ('A' <= c <= 'Z') || ('0' <= c <= '9') || c == '_'
  }

  /** `s.startswith(prefix)` */
  predicate StartsWith(s: string, prefix: string)
  {
    |prefix| <= |s| && s[..|prefix|] == prefix
  }

  /** `s.endswith(suffix)` */
  predicate EndsWith(s: string, suffix: string)
  {
    |suffix| <= |s| && s[|s| - |suffix|..] == suffix
  }

  /** `t in s`: `t` occurs somewhere in `s` (the empty string occurs everywhere). */
  predicate Contains(s: string, t: string)
    decreases |s|
  {
    StartsWith(s, t) || (|s| > 0 && Contains(s[1..], t))
  }

  /** `s.lstrip()` */
  function StripLeft(s: string): (r: string)
    ensures |r| <= |s|
    ensures r == [] || !IsSpace(r[0])
    ensures forall i :: 0 <= i < |s| - |r| ==> IsSpace(s[i])
    decreases |s|
  {
    if |s| > 0 && IsSpace(s[0]) then StripLeft(s[1..]) else s
  }

  /** `s.rstrip()` */
  function StripRight(s: string): (r: string)
    ensures |r| <= |s|
    ensures r == [] || !IsSpace(r[|r| - 1])
    ensures forall i :: |r| <= i < |s| ==> IsSpace(s[i])
    decreases |s|
  {
    if |s| > 0 && IsSpace(s[|s| - 1]) then StripRight(s[..|s| - 1]) else s
  }

  /** `s.strip()` */
  function Strip(s: string): string
  {
    StripRight(StripLeft(s))
  }

  /** `s.split(sep)` for a non-empty separator: occurrences are found left to right
      without overlapping, and the pieces between them are returned in order. */
  function Split(s: string, sep: string): (r: seq<string>)
    requires sep != []
    ensures |r| >= 1
    decreases |s|
  {
    if |s| < |sep| then [s]
    else if s[..|sep|] == sep then [[]] + Split(s[|sep|..], sep)
    else
      var rest := Split(s[1..], sep);
      [[s[0]] + rest[0]] + rest[1..]
  }

  /** `sep.join(parts)` */
  function Join(parts: seq<string>, sep: string): string
    decreases |parts|
  {
    if |parts| == 0 then []
    else if |parts| == 1 then parts[0]
    else parts[0] + sep + Join(parts[1..], sep)
  }

  /** `s.replace(pat, rep)` for a non-empty `pat`: every occurrence, found left to
      right without overlapping, is replaced. */
  function Replace(s: string, pat: string, rep: string): string
    requires pat != []
    decreases |s|
  {
    if |s| < |pat| then s
    else if s[..|pat|] == pat then rep + Replace(s[|pat|..], pat, rep)
    else [s[0]] + Replace(s[1..], pat, rep)
  }

  /** `s * n` */
  function Repeat(s: string, n: nat): string
  {
    if n == 0 then [] else s + Repeat(s, n - 1)
  }

  /** `os.path.join(a, b)` on POSIX: an absolute `b` discards `a`; a separator is
      inserted only when `a` is non-empty and does not already end with one. */
  function PathJoin(a: string, b: string): (r: string)
    ensures StartsWith(b, "/") ==> r == b
    ensures !StartsWith(b, "/") && a != [] && a[|a| - 1] != '/' ==> r == a + "/" + b
    ensures !StartsWith(b, "/") && (a == [] || a[|a| - 1] == '/') ==> r == a + b
  {
    if StartsWith(b, "/") then b
    else if a == [] || a[|a| - 1] == '/' then a + b
    else a + "/" + b
  }

  // ---------------------------------------------------------------------------
  // Facts about the operations above.
  // ---------------------------------------------------------------------------

  /** `t` occurs in `s` starting at index `i`. */
  predicate OccursAt(s: string, t: string, i: int)
  {
    0 <= i <= |s| - |t| && s[i..i + |t|] == t
  }

  /** `t in s` means some window of `s` equals `t`. */
  lemma {:induction false} ContainsIffWindow(s: string, t: string)
    ensures Contains(s, t) <==> exists i :: OccursAt(s, t, i)
    decreases |s|
  {
    if StartsWith(s, t) {
      assert OccursAt(s, t, 0);
    } else if |s| == 0 {
    } else {
      ContainsIffWindow(s[1..], t);
      if exists i :: OccursAt(s, t, i) {
        var i :| OccursAt(s, t, i);
        assert i != 0;
        assert s[1..][i - 1..i - 1 + |t|] == t;
        assert OccursAt(s[1..], t, i - 1);
      }
      if Contains(s[1..], t) {
        var j :| OccursAt(s[1..], t, j);
        assert s[j + 1..j + 1 + |t|] == t;
        assert OccursAt(s, t, j + 1);
      }
    }
  }

  /** A one-character string occurs exactly when the character does. */
  lemma {:induction false} ContainsChar(s: string, c: char)
    ensures Contains(s, [c]) <==> c in s
    decreases |s|
  {
    if |s| > 0 {
      ContainsChar(s[1..], c);
      assert s == [s[0]] + s[1..];
    }
  }

  /** A string whose first character never occurs in `x` cannot occur in `x`
      followed by anything shorter than itself. */
  lemma {:induction false} NotContainedBeforeShortTail(x: string, p: string, t: string)
    requires t != [] && t[0] !in x && |p| < |t|
    ensures !Contains(x + p, t)
    decreases |x| + |p|
  {
    if |x| > 0 {
      assert (x + p)[0] == x[0];
      assert (x + p)[1..] == x[1..] + p;
      NotContainedBeforeShortTail(x[1..], p, t);
    } else if |p| > 0 {
      assert (x + p)[1..] == [] + p[1..];
      NotContainedBeforeShortTail([], p[1..], t);
    }
  }

  /** `s.lstrip()` is a suffix of `s`. */
  lemma {:induction false} StripLeftIsSuffix(s: string)
    ensures StripLeft(s) == s[|s| - |StripLeft(s)|..]
    decreases |s|
  {
    if |s| > 0 && IsSpace(s[0]) {
      StripLeftIsSuffix(s[1..]);
    }
  }

  /** `s.rstrip()` is a prefix of `s`. */
  lemma {:induction false} StripRightIsPrefix(s: string)
    ensures StripRight(s) == s[..|StripRight(s)|]
    decreases |s|
  {
    if |s| > 0 && IsSpace(s[|s| - 1]) {
      StripRightIsPrefix(s[..|s| - 1]);
    }
  }

  /** Stripping a string that has no whitespace at either end changes nothing. */
  lemma StripUnchanged(s: string)
    requires s == [] || (!IsSpace(s[0]) && !IsSpace(s[|s| - 1]))
    ensures Strip(s) == s
  {
  }

  /** A text ending with a non-empty suffix ends with the suffix's last character. */
  lemma EndsWithSameLastChar(s: string, t: string)
    requires EndsWith(s, t) && t != []
    ensures s != [] && s[|s| - 1] == t[|t| - 1]
    ensures EndsWith(s, ")") <==> t[|t| - 1] == ')'
  {
    assert s[|s| - |t|..][|t| - 1] == s[|s| - 1];
  }

  /** Splitting a string in which the separator does not occur yields the string itself. */
  lemma {:induction false} SplitWithoutSeparator(s: string, sep: string)
    requires sep != [] && !Contains(s, sep)
    ensures Split(s, sep) == [s]
    decreases |s|
  {
    if |s| >= |sep| {
      assert !StartsWith(s, sep);
      SplitWithoutSeparator(s[1..], sep);
      assert [s[0]] + s[1..] == s;
    }
  }

  /** The first piece of a split ends at the first occurrence of the separator: when
      no occurrence starts inside `x`, `x` is the first piece of `x + sep + y`. */
  lemma {:induction false} SplitAtFirst(x: string, sep: string, y: string)
    requires sep != [] && !Contains(x + sep[..|sep| - 1], sep)
    ensures Split(x + sep + y, sep) == [x] + Split(y, sep)
    decreases |x|
  {
    var s := x + sep + y;
    var p := sep[..|sep| - 1];
    if |x| == 0 {
      assert s[..|sep|] == sep;
      assert s[|sep|..] == y;
    } else {
      assert s == (x + p) + [sep[|sep| - 1]] + y;
      assert s[..|sep|] == (x + p)[..|sep|];
      assert !StartsWith(x + p, sep);
      assert (x + p)[1..] == x[1..] + p;
      assert s[1..] == x[1..] + sep + y;
      SplitAtFirst(x[1..], sep, y);
      assert [s[0]] + x[1..] == x;
    }
  }

  /** A sequence is its prefix followed by the rest. */
  lemma TakeDrop<T>(s: seq<T>, k: nat)
    requires k <= |s|
    ensures s[..k] + s[k..] == s
  {
  }

  /** A non-empty sequence is its first element followed by the rest. */
  lemma HeadTail<T>(s: seq<T>)
    requires s != []
    ensures [s[0]] + s[1..] == s
  {
  }

  /** A window of a suffix is the same window of any longer suffix, shifted. */
  lemma SuffixWindow<T>(s: seq<T>, p: nat, r: nat, n: nat)
    requires p <= r && r + n <= |s|
    ensures s[r..][..n] == s[p..][r - p..r - p + n]
  {
  }

  /** Concatenation is associative; stated once so that proofs about long
      concatenations need not rediscover it. */
  lemma AppendAssociates<T>(x: seq<T>, y: seq<T>, z: seq<T>)
    ensures x + (y + z) == (x + y) + z
  {
  }

  /** A one-character separator occurring after a piece free of it splits there. */
  lemma SplitAtChar(x: string, c: char, y: string)
    requires c !in x
    ensures Split(x + [c] + y, [c]) == [x] + Split(y, [c])
  {
    ContainsChar(x, c);
    assert x + [c][..0] == x;
    SplitAtFirst(x, [c], y);
  }

  /** With a one-character separator, splitting distributes over a separator. */
  lemma {:induction false} SplitConcatChar(a: string, c: char, b: string)
    ensures Split(a + [c] + b, [c]) == Split(a, [c]) + Split(b, [c])
    decreases |a|
  {
    if c in a {
      var k := FirstIndex(a, c);
      var a1, a2 := a[..k], a[k + 1..];
      assert a == a1 + [c] + a2;
      SplitConcatChar(a2, c, b);
      SplitConcatCharStep(a1, a2, c, b);
    } else {
      ContainsChar(a, c);
      SplitWithoutSeparator(a, [c]);
      SplitAtChar(a, c, b);
    }
  }

  lemma SplitConcatCharStep(a1: string, a2: string, c: char, b: string)
    requires c !in a1
    requires Split(a2 + [c] + b, [c]) == Split(a2, [c]) + Split(b, [c])
    ensures Split(a1 + [c] + a2 + [c] + b, [c]) == Split(a1 + [c] + a2, [c]) + Split(b, [c])
  {
    var tail := a2 + [c] + b;
    AppendAssociates(a1 + [c] + a2, [c], b);
    AppendAssociates(a1 + [c], a2, [c] + b);
    AppendAssociates(a2, [c], b);
    assert a1 + [c] + a2 + [c] + b == a1 + [c] + tail;
    SplitAtChar(a1, c, tail);
    SplitAtChar(a1, c, a2);
    AppendAssociates([a1], Split(a2, [c]), Split(b, [c]));
  }

  /** The position of the first occurrence of a character known to occur. */
  function FirstIndex(s: string, c: char): (k: nat)
    requires c in s
    ensures k < |s| && s[k] == c && c !in s[..k]
  {
    if s[0] == c then 0 else FirstIndex(s[1..], c) + 1
  }

  /** Splitting and re-joining with the same separator restores the string. */
  lemma {:induction false} JoinSplit(s: string, sep: string)
    requires sep != []
    ensures Join(Split(s, sep), sep) == s
    decreases |s|
  {
    if |s| < |sep| {
    } else if s[..|sep|] == sep {
      JoinSplit(s[|sep|..], sep);
      JoinSplitAtSeparator(s, sep);
    } else {
      JoinSplit(s[1..], sep);
      JoinSplitPastChar(s, sep);
    }
  }

  /** The step of `JoinSplit` for a text starting with the separator. */
  lemma JoinSplitAtSeparator(s: string, sep: string)
    requires sep != [] && |sep| <= |s| && s[..|sep|] == sep
    requires Join(Split(s[|sep|..], sep), sep) == s[|sep|..]
    ensures Join(Split(s, sep), sep) == s
  {
    var rest := Split(s[|sep|..], sep);
    assert Split(s, sep) == [[]] + rest;
    JoinFront([], rest, sep);
    TakeDrop(s, |sep|);
    assert [] + sep == sep;
  }

  /** The step of `JoinSplit` for a text not starting with the separator. */
  lemma JoinSplitPastChar(s: string, sep: string)
    requires sep != [] && |sep| <= |s| && s[..|sep|] != sep
    requires Join(Split(s[1..], sep), sep) == s[1..]
    ensures Join(Split(s, sep), sep) == s
  {
    var rest := Split(s[1..], sep);
    assert Split(s, sep) == [[s[0]] + rest[0]] + rest[1..];
    JoinConsChar(s[0], rest, sep);
    HeadTail(s);
  }

  /** Joining a piece in front of at least one more puts the separator between. */
  lemma JoinFront(p: string, parts: seq<string>, sep: string)
    requires |parts| >= 1
    ensures Join([p] + parts, sep) == p + sep + Join(parts, sep)
  {
    assert ([p] + parts)[1..] == parts;
  }

  /** Prepending a character to the first piece prepends it to the joined text. */
  lemma JoinConsChar(c: char, parts: seq<string>, sep: string)
    requires |parts| >= 1
    ensures Join([[c] + parts[0]] + parts[1..], sep) == [c] + Join(parts, sep)
  {
    var q := [[c] + parts[0]] + parts[1..];
    if |parts| > 1 {
      assert q[1..] == parts[1..];
    }
  }

  /** `str.replace` is `rep.join(s.split(pat))`. */
  lemma {:induction false} ReplaceIsJoinOfSplit(s: string, pat: string, rep: string)
    requires pat != []
    ensures Replace(s, pat, rep) == Join(Split(s, pat), rep)
    decreases |s|
  {
    if |s| < |pat| {
    } else if s[..|pat|] == pat {
      ReplaceIsJoinOfSplit(s[|pat|..], pat, rep);
    } else {
      ReplaceIsJoinOfSplit(s[1..], pat, rep);
      JoinConsChar(s[0], Split(s[1..], pat), rep);
    }
  }

  /** Replacing one character by another acts position by position. */
  lemma {:induction false} ReplaceCharPointwise(s: string, a: char, b: char)
    ensures |Replace(s, [a], [b])| == |s|
    ensures forall i :: 0 <= i < |s| ==> Replace(s, [a], [b])[i] == (if s[i] == a then b else s[i])
    decreases |s|
  {
    if |s| > 0 {
      ReplaceCharPointwise(s[1..], a, b);
    }
  }

  /** A character that does not occur is left alone by a one-character replacement. */
  lemma ReplaceCharAbsent(s: string, a: char, b: char)
    requires a !in s
    ensures Replace(s, [a], [b]) == s
  {
    ReplaceCharPointwise(s, a, b);
  }

  /** Replacing `a` by `b` and then `b` by `a` restores a string that had no `b`. */
  lemma ReplaceCharRoundTrip(s: string, a: char, b: char)
    requires b !in s
    ensures Replace(Replace(s, [a], [b]), [b], [a]) == s
  {
    var r := Replace(s, [a], [b]);
    ReplaceCharPointwise(s, a, b);
    ReplaceCharPointwise(r, b, a);
  }

  /** Joining distributes over concatenation of non-empty piece lists. */
  lemma {:induction false} JoinAppend(p: seq<string>, q: seq<string>, sep: string)
    requires |p| >= 1 && |q| >= 1
    ensures Join(p + q, sep) == Join(p, sep) + sep + Join(q, sep)
    decreases |p|
  {
    if |p| == 1 {
      assert (p + q)[1..] == q;
    } else {
      assert (p + q)[1..] == p[1..] + q;
      JoinAppend(p[1..], q, sep);
    }
  }

  /** A string shorter than `t` cannot contain it. */
  lemma ShortCannotContain(x: string, t: string)
    requires |x| < |t|
    ensures !Contains(x, t)
  {
    NotContainedBeforeShortTail([], x, t);
  }

  /** Text that lacks the first character of `t` cannot hold an occurrence of `t`
      starting inside it. */
  lemma {:induction false} ContainsPastPrefix(x: string, y: string, t: string)
    requires t != [] && t[0] !in x
    ensures Contains(x + y, t) ==> Contains(y, t)
    decreases |x|
  {
    if |x| > 0 {
      assert (x + y)[0] == x[0];
      if |t| <= |x + y| {
        assert (x + y)[..|t|][0] == x[0];
      }
      assert !StartsWith(x + y, t);
      assert (x + y)[1..] == x[1..] + y;
      ContainsPastPrefix(x[1..], y, t);
    } else {
      assert x + y == y;
    }
  }

  /** Replacement leaves a prefix that lacks the pattern's first character alone. */
  lemma {:induction false} ReplaceAfterPrefix(x: string, y: string, pat: string, rep: string)
    requires pat != [] && pat[0] !in x
    ensures Replace(x + y, pat, rep) == x + Replace(y, pat, rep)
    decreases |x|
  {
    if |x| > 0 {
      var s := x + y;
      if |s| < |pat| {
        assert Replace(y, pat, rep) == y;
      } else {
        assert s[..|pat|][0] == x[0];
        assert s[1..] == x[1..] + y;
        ReplaceAfterPrefix(x[1..], y, pat, rep);
        assert [x[0]] + x[1..] == x;
      }
    } else {
      assert x + y == y;
    }
  }

  /** Replacing every copy of a pattern in a run of copies gives a run of replacements. */
  lemma {:induction false} ReplaceRepeat(pat: string, rep: string, n: nat)
    requires pat != []
    ensures Replace(Repeat(pat, n), pat, rep) == Repeat(rep, n)
  {
    if n > 0 {
      var s := Repeat(pat, n);
      assert s[..|pat|] == pat;
      assert s[|pat|..] == Repeat(pat, n - 1);
      ReplaceRepeat(pat, rep, n - 1);
    }
  }

  /** After replacing a two-character pattern by text that holds neither of its
      characters, the pattern no longer occurs. */
  lemma {:induction false} ReplacedPairGone(s: string, a: char, b: char, rep: string)
    requires a != b && rep != [] && a !in rep && b !in rep
    ensures !Contains(Replace(s, [a, b], rep), [a, b])
    decreases |s|
  {
    var pat := [a, b];
    var r := Replace(s, pat, rep);
    if |s| < 2 {
      ShortCannotContain(s, pat);
    } else if s[..2] == pat {
      ReplacedPairGone(s[2..], a, b, rep);
      ContainsPastPrefix(rep, Replace(s[2..], pat, rep), pat);
    } else {
      var tail := Replace(s[1..], pat, rep);
      ReplacedPairGone(s[1..], a, b, rep);
      assert r == [s[0]] + tail;
      assert r[1..] == tail;
      if StartsWith(r, pat) {
        ReplaceFirstChar(s[1..], pat, rep);
        assert false;
      }
    }
  }

  /** The first character of a replacement result comes from the replacement text
      when the input starts with the pattern, and from the input otherwise. */
  lemma ReplaceFirstChar(s: string, pat: string, rep: string)
    requires pat != [] && rep != [] && Replace(s, pat, rep) != []
    ensures s != []
    ensures Replace(s, pat, rep)[0] == (if StartsWith(s, pat) then rep[0] else s[0])
  {
  }

  /** A character missing from every piece and from the separator is missing from
      the joined text. */
  lemma {:induction false} CharNotInJoin(parts: seq<string>, sep: string, c: char)
    requires c !in sep && forall i :: 0 <= i < |parts| ==> c !in parts[i]
    ensures c !in Join(parts, sep)
    decreases |parts|
  {
    if |parts| > 1 {
      CharNotInJoin(parts[1..], sep, c);
    }
  }

  /** Every character of a joined text comes from a piece or from the separator. */
  lemma {:induction false} JoinChars(parts: seq<string>, sep: string, P: char -> bool)
    requires forall i :: 0 <= i < |sep| ==> P(sep[i])
    requires forall k, i :: 0 <= k < |parts| && 0 <= i < |parts[k]| ==> P(parts[k][i])
    ensures forall i :: 0 <= i < |Join(parts, sep)| ==> P(Join(parts, sep)[i])
    decreases |parts|
  {
    if |parts| > 1 {
      JoinChars(parts[1..], sep, P);
      var rest := Join(parts[1..], sep);
      assert Join(parts, sep) == parts[0] + sep + rest;
      forall i | 0 <= i < |Join(parts, sep)|
        ensures P(Join(parts, sep)[i])
      {
        if i < |parts[0]| {
          assert Join(parts, sep)[i] == parts[0][i];
        } else if i < |parts[0]| + |sep| {
          assert Join(parts, sep)[i] == sep[i - |parts[0]|];
        } else {
          assert Join(parts, sep)[i] == rest[i - |parts[0]| - |sep|];
        }
      }
    } else if |parts| == 1 {
      assert Join(parts, sep) == parts[0];
    }
  }

  /** A joined text ends with its last piece. */
  lemma {:induction false} JoinEndsWithLast(parts: seq<string>, sep: string)
    requires |parts| >= 1
    ensures EndsWith(Join(parts, sep), parts[|parts| - 1])
    decreases |parts|
  {
    if |parts| > 1 {
      JoinEndsWithLast(parts[1..], sep);
      var rest := Join(parts[1..], sep);
      var last := parts[|parts| - 1];
      assert Join(parts, sep) == (parts[0] + sep) + rest;
      assert rest[|rest| - |last|..] == last;
      assert Join(parts, sep)[|Join(parts, sep)| - |last|..] == rest[|rest| - |last|..];
    }
  }

  /** Joining pieces free of a one-character separator and splitting again gives
      the pieces back. */
  lemma {:induction false} SplitJoinChar(parts: seq<string>, c: char)
    requires |parts| >= 1 && forall i :: 0 <= i < |parts| ==> c !in parts[i]
    ensures Split(Join(parts, [c]), [c]) == parts
    decreases |parts|
  {
    if |parts| == 1 {
      ContainsChar(parts[0], c);
      SplitWithoutSeparator(parts[0], [c]);
    } else {
      SplitJoinChar(parts[1..], c);
      SplitAtChar(parts[0], c, Join(parts[1..], [c]));
      assert [parts[0]] + parts[1..] == parts;
    }
  }

  /** Every character of every piece of a split comes from the split text. */
  lemma {:induction false} SplitPartsChars(s: string, sep: string, P: char -> bool)
    requires sep != [] && forall i :: 0 <= i < |s| ==> P(s[i])
    ensures forall k, i :: 0 <= k < |Split(s, sep)| && 0 <= i < |Split(s, sep)[k]| ==> P(Split(s, sep)[k][i])
    decreases |s|
  {
    if |s| >= |sep| {
      if s[..|sep|] == sep {
        SplitPartsChars(s[|sep|..], sep, P);
      } else {
        SplitPartsChars(s[1..], sep, P);
        var rest := Split(s[1..], sep);
        assert forall i :: 0 <= i < |rest[0]| ==> P(rest[0][i]);
        assert forall i :: 0 <= i < |[s[0]] + rest[0]| ==> P(([s[0]] + rest[0])[i]);
      }
    }
  }

  /** An occurrence inside a middle part is an occurrence in the whole. */
  lemma ContainsInside(x: string, y: string, z: string, t: string)
    requires Contains(y, t)
    ensures Contains(x + y + z, t)
  {
    ContainsIffWindow(y, t);
    var i :| OccursAt(y, t, i);
    assert (x + y + z)[|x| + i..|x| + i + |t|] == y[i..i + |t|];
    assert OccursAt(x + y + z, t, |x| + i);
    ContainsIffWindow(x + y + z, t);
  }

  /** A text that lacks the first character of `t` does not contain `t`. */
  lemma LacksFirstChar(s: string, t: string)
    requires t != [] && t[0] !in s
    ensures !Contains(s, t)
  {
    NotContainedBeforeShortTail(s, [], t);
    assert s + [] == s;
  }

  /** Extending the last piece extends the joined text. */
  lemma {:induction false} JoinExtendLast(parts: seq<string>, sep: string, x: string)
    requires |parts| >= 1
    ensures Join(parts[..|parts| - 1] + [parts[|parts| - 1] + x], sep) == Join(parts, sep) + x
    decreases |parts|
  {
    var q := parts[..|parts| - 1] + [parts[|parts| - 1] + x];
    if |parts| > 1 {
      JoinExtendLast(parts[1..], sep, x);
      assert q[1..] == parts[1..][..|parts[1..]| - 1] + [parts[1..][|parts[1..]| - 1] + x];
    }
  }
}
