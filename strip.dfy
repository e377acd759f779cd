/**
 * `stripExportedVars`: removes the names a package exports from the first
 * top-level `var` declaration of the generated JavaScript, editing that one
 * line in place and padding it with spaces so that no line gets shorter and
 * every source-map position stays valid.
 */
module StripExports {
  import opened Wrappers
  import opened Text

  /** The characters the regular-expression `.` does not match. */
  predicate IsLineTerminator(c: char)
  {
    c == '\n' || c == '\r' || c == '\U{2028}' || c == '\U{2029}'
  }

  /** The two groups captured by `/^var (.+)([,;])$/`: the name list and the terminator. */
  datatype VarDecl = VarDecl(names: string, terminator: char)

  /**
   * `line` matches `/^var (.+)([,;])$/` with groups `d`: it is `var `, then
   * the name list (one or more characters, none a line terminator), then a
   * `,` or `;` that ends the line.
   */
  predicate MatchesAs(line: string, d: VarDecl)
  {
    && line == "var " + d.names + [d.terminator]
    && |d.names| >= 1
    && (d.terminator == ',' || d.terminator == ';')
    && forall k :: 0 <= k < |d.names| ==> !IsLineTerminator(d.names[k])
  }

  /** `/^var (.+)([,;])$/.exec(line)`: the groups when the line matches, and the match is unique. */
  function MatchVarLine(line: string): (m: Option<VarDecl>)
    ensures m.Some? ==> MatchesAs(line, m.value)
    ensures forall d :: MatchesAs(line, d) ==> m == Some(d)
  {
    if && |line| >= 6
       && line[..4] == "var "
       && (line[|line| - 1] == ',' || line[|line| - 1] == ';')
       && forall k :: 4 <= k < |line| - 1 ==> !IsLineTerminator(line[k])
    then
      var d := VarDecl(line[4..|line| - 1], line[|line| - 1]);
      assert line == "var " + d.names + [d.terminator];
      assert forall k :: 0 <= k < |d.names| ==> d.names[k] == line[k + 4];
      Some(d)
    else
      None
  }

  /** The line is the one `stripExportedVars` rewrites if it comes first: it matches and its name list holds no `=`. */
  predicate IsCandidate(line: string)
  {
    match MatchVarLine(line)
    case None => false
    case Some(d) => '=' !in d.names
  }

  /**
   * `_.difference(xs, exports)`: the elements of `xs` that are not exported,
   * in their order, repeats kept.
   */
  function Difference(xs: seq<string>, exports: seq<string>): seq<string>
  {
    if xs == [] then []
    else (if xs[0] in exports then [] else [xs[0]]) + Difference(xs[1..], exports)
  }

  /** A name survives exactly when it was declared and is not exported. */
  lemma {:induction false} DifferenceMembers(xs: seq<string>, exports: seq<string>)
    ensures forall x :: x in Difference(xs, exports) <==> x in xs && x !in exports
  {
    if xs != [] {
      DifferenceMembers(xs[1..], exports);
      assert xs == [xs[0]] + xs[1..];
    }
  }

  /** Removing names distributes over concatenation, so the order of the survivors is the original order. */
  lemma {:induction false} DifferenceAppend(a: seq<string>, b: seq<string>, exports: seq<string>)
    ensures Difference(a + b, exports) == Difference(a, exports) + Difference(b, exports)
  {
    if a == [] {
      assert a + b == b;
    } else {
      var head: seq<string> := if a[0] in exports then [] else [a[0]];
      calc {
        Difference(a + b, exports);
        { assert (a + b)[0] == a[0]; assert (a + b)[1..] == a[1..] + b; }
        head + Difference(a[1..] + b, exports);
        { DifferenceAppend(a[1..], b, exports); }
        head + (Difference(a[1..], exports) + Difference(b, exports));
        (head + Difference(a[1..], exports)) + Difference(b, exports);
      }
    }
  }

  /** Removing names never lengthens the joined list. */
  lemma {:induction false} DifferenceJoinShorter(xs: seq<string>, exports: seq<string>, sep: string)
    ensures |Join(Difference(xs, exports), sep)| <= |Join(xs, sep)|
  {
    if xs != [] {
      var rest := Difference(xs[1..], exports);
      DifferenceJoinShorter(xs[1..], exports, sep);
      if xs[0] in exports {
        assert Difference(xs, exports) == rest;
      } else {
        assert Difference(xs, exports) == [xs[0]] + rest;
        if rest != [] {
          assert ([xs[0]] + rest)[1..] == rest;
        }
      }
    }
  }

  /** The names the declaration keeps: its list split on `", "`, minus the exports. */
  function Survivors(d: VarDecl, exports: seq<string>): seq<string>
  {
    Difference(Split(d.names, ", "), exports)
  }

  /** The text the matched line is replaced with, before `replaceLine` pads it. */
  function Replacement(d: VarDecl, exports: seq<string>): string
  {
    var vars := Survivors(d, exports);
    if vars != [] then "var " + Join(vars, ", ") + [d.terminator]
    else if d.terminator == ';' then ""
    else "var"
  }

  /** The matched line after `replaceLine`. */
  function RewriteLine(line: string, d: VarDecl, exports: seq<string>): string
  {
    Pad(Replacement(d, exports), |line|)
  }

  /** The replacement is never wider than the matched line and holds no newline. */
  lemma ReplacementFits(line: string, d: VarDecl, exports: seq<string>)
    requires MatchesAs(line, d)
    ensures |Replacement(d, exports)| <= |line|
    ensures '\n' !in Replacement(d, exports)
  {
    var names := Split(d.names, ", ");
    var vars := Survivors(d, exports);
    DifferenceJoinShorter(names, exports, ", ");
    JoinSplit(d.names, ", ");
    assert '\n' !in d.names by {
      assert forall k :: 0 <= k < |d.names| ==> d.names[k] != '\n';
    }
    SplitAvoids(d.names, ", ", '\n');
    DifferenceMembers(names, exports);
    forall k | 0 <= k < |vars|
      ensures '\n' !in vars[k]
    {
      assert vars[k] in names;
    }
    JoinAvoids(vars, ", ", '\n');
  }

  /**
   * The rewritten line has exactly the width of the original and no newline;
   * it is the surviving declaration padded with spaces, all spaces when every
   * name of a `;` line is exported, and `var` padded with spaces when every
   * name of a `,` line is exported.
   */
  lemma RewriteLineShape(line: string, d: VarDecl, exports: seq<string>)
    requires MatchesAs(line, d)
    ensures var r := RewriteLine(line, d, exports);
      var vars := Survivors(d, exports);
      && |r| == |line|
      && '\n' !in r
      && (vars != [] ==>
            var decl := "var " + Join(vars, ", ") + [d.terminator];
            r == decl + Spaces(|line| - |decl|))
      && (vars == [] && d.terminator == ';' ==> r == Spaces(|line|))
      && (vars == [] && d.terminator == ',' ==> r == "var" + Spaces(|line| - 3))
  {
    var x := Replacement(d, exports);
    ReplacementFits(line, d, exports);
    PadShort(x, |line|);
    PadAvoids(x, |line|, '\n');
  }

  /** When names survive, the name list of the rewritten declaration splits back into exactly those names. */
  lemma SurvivorsReparse(d: VarDecl, exports: seq<string>)
    requires Survivors(d, exports) != []
    ensures Split(Join(Survivors(d, exports), ", "), ", ") == Survivors(d, exports)
    ensures forall x :: x in Survivors(d, exports) ==> x !in exports
  {
    var names := Split(d.names, ", ");
    var vars := Survivors(d, exports);
    DifferenceMembers(names, exports);
    forall k | 0 <= k < |vars|
      ensures Find(vars[k], ", ").None?
    {
      assert vars[k] in names;
    }
    SplitJoin(vars, ", ");
  }

  /** Index of the first line `stripExportedVars` rewrites, if any. */
  function FirstCandidate(lines: seq<string>): (r: Option<nat>)
    ensures r.Some? ==> r.value < |lines| && IsCandidate(lines[r.value])
    ensures forall j :: 0 <= j < |lines| && (r.None? || j < r.value) ==> !IsCandidate(lines[j])
  {
    if lines == [] then None
    else if IsCandidate(lines[0]) then Some(0)
    else match FirstCandidate(lines[1..])
      case None => None
      case Some(i) => Some(i + 1)
  }

  /** The lines after the loop: the first candidate rewritten, all others as they were. */
  function RewriteFirst(lines: seq<string>, exports: seq<string>): seq<string>
  {
    match FirstCandidate(lines)
    case None => lines
    case Some(i) => lines[i := RewriteLine(lines[i], MatchVarLine(lines[i]).value, exports)]
  }

  /** What `stripExportedVars(source, exports)` returns. */
  function Stripped(source: string, exports: seq<string>): string
  {
    if exports == [] then source
    else Join(RewriteFirst(Split(source, "\n"), exports), "\n")
  }

  /**
   * Rewriting keeps the number of lines and the width of every line; only
   * the first candidate line changes, and it becomes its rewritten form.
   */
  lemma RewriteFirstShape(lines: seq<string>, exports: seq<string>)
    ensures var r := RewriteFirst(lines, exports);
      && |r| == |lines|
      && (forall j :: 0 <= j < |r| ==> |r[j]| == |lines[j]|)
      && (forall j :: 0 <= j < |r| && Some(j) != FirstCandidate(lines) ==> r[j] == lines[j])
      && (FirstCandidate(lines).Some? ==>
            var i := FirstCandidate(lines).value;
            r[i] == RewriteLine(lines[i], MatchVarLine(lines[i]).value, exports))
  {
    match FirstCandidate(lines)
    case None =>
    case Some(i) =>
      RewriteLineShape(lines[i], MatchVarLine(lines[i]).value, exports);
  }

  /** Splitting the result into lines gives the rewritten lines. */
  lemma StrippedLines(source: string, exports: seq<string>)
    requires exports != []
    ensures Split(Stripped(source, exports), "\n") == RewriteFirst(Split(source, "\n"), exports)
  {
    var lines := Split(source, "\n");
    var r := RewriteFirst(lines, exports);
    RewriteFirstShape(lines, exports);
    forall k | 0 <= k < |r|
      ensures Find(r[k], "\n").None?
    {
      FindChar(lines[k], '\n');
      if Some(k) == FirstCandidate(lines) {
        RewriteLineShape(lines[k], MatchVarLine(lines[k]).value, exports);
      }
      FindChar(r[k], '\n');
    }
    SplitJoin(r, "\n");
  }

  /** With no candidate line the text comes back unchanged. */
  lemma NoCandidateNoChange(source: string, exports: seq<string>)
    requires FirstCandidate(Split(source, "\n")).None?
    ensures Stripped(source, exports) == source
  {
    JoinSplit(source, "\n");
  }

  /** Two joins of equally many lines of equal widths, none holding a newline, have newlines at the same places. */
  lemma {:induction false} JoinKeepsLayout(ps: seq<string>, qs: seq<string>)
    requires |ps| == |qs|
    requires forall j :: 0 <= j < |ps| ==> |ps[j]| == |qs[j]| && '\n' !in ps[j] && '\n' !in qs[j]
    ensures var a, b := Join(ps, "\n"), Join(qs, "\n");
      |a| == |b| && forall k :: 0 <= k < |a| ==> (a[k] == '\n' <==> b[k] == '\n')
  {
    if |ps| > 1 {
      JoinKeepsLayout(ps[1..], qs[1..]);
      var a, b := Join(ps, "\n"), Join(qs, "\n");
      var n := |ps[0]|;
      forall k | 0 <= k < |a|
        ensures a[k] == '\n' <==> b[k] == '\n'
      {
        if k < n {
          assert a[k] == ps[0][k] && b[k] == qs[0][k];
          assert ps[0][k] in ps[0] && qs[0][k] in qs[0];
        } else if k > n {
          assert a[k] == Join(ps[1..], "\n")[k - n - 1];
          assert b[k] == Join(qs[1..], "\n")[k - n - 1];
        }
      }
    }
  }

  /**
   * The result has the length of the source and newlines at exactly the same
   * positions: every character keeps its line and column, which is what keeps
   * the source map valid.
   */
  lemma StrippedKeepsLayout(source: string, exports: seq<string>)
    ensures var r := Stripped(source, exports);
      |r| == |source| && forall k :: 0 <= k < |r| ==> (r[k] == '\n' <==> source[k] == '\n')
  {
    if exports != [] {
      var lines := Split(source, "\n");
      var r := RewriteFirst(lines, exports);
      RewriteFirstShape(lines, exports);
      forall j | 0 <= j < |r|
        ensures |r[j]| == |lines[j]| && '\n' !in r[j] && '\n' !in lines[j]
      {
        FindChar(lines[j], '\n');
        if Some(j) == FirstCandidate(lines) {
          RewriteLineShape(lines[j], MatchVarLine(lines[j]).value, exports);
        }
      }
      JoinKeepsLayout(r, lines);
      JoinSplit(source, "\n");
    }
  }

  /**
   * `stripExportedVars`: scans the lines in order, skips lines that do not
   * match and matched lines whose name list holds `=`, rewrites the first
   * other one in place and stops.
   */
  method StripExportedVars(source: string, exports: seq<string>) returns (r: string)
    ensures r == Stripped(source, exports)
    ensures exports == [] ==> r == source
  {
    if exports == [] {
      return source;
    }
    var parts := Split(source, "\n");
    var lines := new string[|parts|](k requires 0 <= k < |parts| => parts[k]);
    var i := 0;
    while i < lines.Length
      invariant 0 <= i <= lines.Length
      invariant lines[..] == parts
      invariant forall j :: 0 <= j < i ==> !IsCandidate(parts[j])
    {
      var line := lines[i];
      var m := MatchVarLine(line);
      if m.None? {
        i := i + 1;
        continue;
      }
      var d := m.value;
      if '=' in d.names {
        i := i + 1;
        continue;
      }
      var vars := Split(d.names, ", ");
      vars := Difference(vars, exports);
      if vars != [] {
        lines[i] := Pad("var " + Join(vars, ", ") + [d.terminator], |lines[i]|);
      } else if d.terminator == ';' {
        lines[i] := Pad("", |lines[i]|);
      } else {
        lines[i] := Pad("var", |lines[i]|);
      }
      assert FirstCandidate(parts) == Some(i);
      assert lines[..] == RewriteFirst(parts, exports);
      break;
    }
    r := Join(lines[..], "\n");
  }

  /** `var a;` with `a` exported becomes six spaces. */
  lemma ExampleDropOnlyName()
    ensures RewriteLine("var a;", VarDecl("a", ';'), ["a"]) == "      "
  {
    assert Split("a", ", ") == ["a"];
  }

  /** `var a,` with `a` exported becomes `var` and three spaces, so the statement still continues on the next line. */
  lemma ExampleDropOnlyNameContinued()
    ensures RewriteLine("var a,", VarDecl("a", ','), ["a"]) == "var   "
  {
    assert Split("a", ", ") == ["a"];
    PadShort("var", 6);
  }

  /** `var a = 1, b;` matches the pattern but holds an assignment, so it is never the line rewritten. */
  lemma ExampleAssignmentSkipped()
    ensures MatchVarLine("var a = 1, b;").Some?
    ensures !IsCandidate("var a = 1, b;")
  {
    assert "var a = 1, b;"[4..12][2] == '=';
  }
}
