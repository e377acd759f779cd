/**
 * The JavaScript string primitives the plugin relies on: `indexOf` of a
 * substring, `split` and `join` with a string separator, right padding with
 * spaces, and the decimal rendering of a non-negative integer.
 */
module Text {
  import opened Wrappers

  /** Two strings that agree on a window have equal slices there. */
  lemma SameWindow(s: string, t: string, j: nat, n: nat)
    requires j + n <= |s| && j + n <= |t|
    requires forall k :: j <= k < j + n ==> s[k] == t[k]
    ensures s[j..j + n] == t[j..j + n]
  {
  }

  /** `pat` occurs in `s` starting at index `j`. */
  predicate OccursAt(s: string, pat: string, j: int)
  {
    0 <= j && j + |pat| <= |s| && s[j..j + |pat|] == pat
  }

  /** Inside an occurrence, each character is the pattern's. */
  lemma OccursAtChar(s: string, pat: string, j: int, k: int)
    requires OccursAt(s, pat, j) && j <= k < j + |pat|
    ensures s[k] == pat[k - j]
  {
    assert s[j..j + |pat|][k - j] == s[k];
  }

  lemma OccursShift(s: string, pat: string)
    requires |s| > 0
    ensures forall j :: 1 <= j ==> (OccursAt(s, pat, j) <==> OccursAt(s[1..], pat, j - 1))
  {
    forall j | 1 <= j
      ensures OccursAt(s, pat, j) <==> OccursAt(s[1..], pat, j - 1)
    {
      if j + |pat| <= |s| {
        var u, v := s[j..j + |pat|], s[1..][j - 1..j - 1 + |pat|];
        assert |u| == |v| && forall k :: 0 <= k < |u| ==> u[k] == v[k];
      }
    }
  }

  /** The first index at which a non-empty `pat` occurs in `s` (`s.indexOf(pat)`), if any. */
  function Find(s: string, pat: string): (r: Option<nat>)
    requires |pat| > 0
    ensures r.Some? ==> OccursAt(s, pat, r.value)
    ensures forall j :: 0 <= j && (r.None? || j < r.value) ==> !OccursAt(s, pat, j)
    decreases |s|
  {
    if |s| < |pat| then None
    else if s[..|pat|] == pat then Some(0)
    else
      OccursShift(s, pat);
      match Find(s[1..], pat)
      case None => None
      case Some(i) => Some(i + 1)
  }

  /** For a one-character pattern, `Find` fails exactly when the character is absent. */
  lemma FindChar(s: string, c: char)
    ensures Find(s, [c]).None? <==> c !in s
  {
    match Find(s, [c])
    case Some(i) =>
      assert s[i..i + 1] == [c];
      assert s[i] == c;
    case None =>
      forall j | 0 <= j < |s|
        ensures s[j] != c
      {
        assert !OccursAt(s, [c], j);
        assert s[j..j + 1] == [s[j]];
      }
  }

  /** `s.split(sep)` for a non-empty string separator. */
  function Split(s: string, sep: string): (parts: seq<string>)
    requires |sep| > 0
    ensures |parts| >= 1
    ensures forall k :: 0 <= k < |parts| ==> Find(parts[k], sep).None?
    decreases |s|
  {
    match Find(s, sep)
    case None => [s]
    case Some(i) =>
      PrefixHasNoOccurrence(s, sep, i);
      [s[..i]] + Split(s[i + |sep|..], sep)
  }

  lemma PrefixHasNoOccurrence(s: string, sep: string, i: nat)
    requires |sep| > 0 && i <= |s|
    requires forall j :: 0 <= j < i ==> !OccursAt(s, sep, j)
    ensures Find(s[..i], sep).None?
  {
    var t := s[..i];
    forall j | 0 <= j && j + |sep| <= i
      ensures !OccursAt(t, sep, j)
    {
      assert t[j..j + |sep|] == s[j..j + |sep|];
      assert !OccursAt(s, sep, j);
    }
  }

  /** `parts.join(sep)`. */
  function Join(parts: seq<string>, sep: string): string
  {
    if |parts| == 0 then ""
    else if |parts| == 1 then parts[0]
    else parts[0] + sep + Join(parts[1..], sep)
  }

  /** Joining a first piece in front of at least one more puts the separator between them. */
  lemma JoinCons(p: string, ps: seq<string>, sep: string)
    requires |ps| >= 1
    ensures Join([p] + ps, sep) == p + sep + Join(ps, sep)
  {
    assert ([p] + ps)[0] == p;
    assert ([p] + ps)[1..] == ps;
  }

  /** Joining what `split` returned gives the string back. */
  lemma {:induction false} JoinSplit(s: string, sep: string)
    requires |sep| > 0
    ensures Join(Split(s, sep), sep) == s
    decreases |s|
  {
    match Find(s, sep)
    case None =>
    case Some(i) =>
      var first, rest := s[..i], s[i + |sep|..];
      SplitStep(s, sep, i);
      JoinCons(first, Split(rest, sep), sep);
      JoinSplit(rest, sep);
  }

  /** Where `Find` stops, the string is the piece before, the separator and the rest, and so is its split. */
  lemma SplitStep(s: string, sep: string, i: nat)
    requires |sep| > 0 && Find(s, sep) == Some(i)
    ensures s == s[..i] + sep + s[i + |sep|..]
    ensures Split(s, sep) == [s[..i]] + Split(s[i + |sep|..], sep)
  {
    assert s[i..i + |sep|] == sep;
    assert s == s[..i] + s[i..i + |sep|] + s[i + |sep|..];
  }

  /** `s[k]` differs from what an occurrence of `pat` at `j` would put there. */
  lemma MismatchAt(s: string, pat: string, j: int, k: int)
    requires 0 <= j <= k < j + |pat| && k < |s|
    requires s[k] != pat[k - j]
    ensures !OccursAt(s, pat, j)
  {
    if j + |pat| <= |s| {
      assert s[j..j + |pat|][k - j] == s[k];
    }
  }

  /**
   * The separators the plugin uses, a single character and `", "`, cannot
   * straddle the end of a piece that does not contain them: the first
   * occurrence in `p + sep + rest` is the one just after `p`.
   */
  lemma FindAtJoint(p: string, sep: string, rest: string)
    requires |sep| == 1 || sep == ", "
    requires Find(p, sep).None?
    ensures Find(p + sep + rest, sep) == Some(|p|)
  {
    var s := p + sep + rest;
    assert s[|p|..|p| + |sep|] == sep;
    assert OccursAt(s, sep, |p|);
    forall j | 0 <= j < |p|
      ensures !OccursAt(s, sep, j)
    {
      if j + |sep| <= |p| {
        assert s[j..j + |sep|] == p[j..j + |sep|];
        assert !OccursAt(p, sep, j);
      } else {
        assert sep == ", " && s[j + 1] == ',';
        MismatchAt(s, sep, j, j + 1);
      }
    }
  }

  /** Splitting a join gives the pieces back when none contains the separator. */
  lemma {:induction false} SplitJoin(parts: seq<string>, sep: string)
    requires |sep| == 1 || sep == ", "
    requires |parts| >= 1
    requires forall k :: 0 <= k < |parts| ==> Find(parts[k], sep).None?
    ensures Split(Join(parts, sep), sep) == parts
  {
    if |parts| > 1 {
      var rest := Join(parts[1..], sep);
      FindAtJoint(parts[0], sep, rest);
      var s := parts[0] + sep + rest;
      assert s[|parts[0]| + |sep|..] == rest;
      assert s[..|parts[0]|] == parts[0];
      SplitJoin(parts[1..], sep);
      assert parts == [parts[0]] + parts[1..];
    }
  }

  /** A character missing from `s` is missing from every piece of its split. */
  lemma {:induction false} SplitAvoids(s: string, sep: string, c: char)
    requires |sep| > 0 && c !in s
    ensures forall k :: 0 <= k < |Split(s, sep)| ==> c !in Split(s, sep)[k]
    decreases |s|
  {
    match Find(s, sep)
    case None =>
    case Some(i) =>
      assert forall x :: x in s[..i] ==> x in s;
      assert forall x :: x in s[i + |sep|..] ==> x in s;
      SplitAvoids(s[i + |sep|..], sep, c);
  }

  /** A character missing from every piece and from the separator is missing from the join. */
  lemma {:induction false} JoinAvoids(parts: seq<string>, sep: string, c: char)
    requires c !in sep
    requires forall k :: 0 <= k < |parts| ==> c !in parts[k]
    ensures c !in Join(parts, sep)
  {
    if |parts| > 1 {
      JoinAvoids(parts[1..], sep, c);
    }
  }

  /** `s` with `t` written over it from index `i` on; the width does not change. */
  function Overwrite(s: string, i: nat, t: string): (r: string)
    requires i + |t| <= |s|
    ensures |r| == |s|
  {
    s[..i] + t + s[i + |t|..]
  }

  /** Outside the overwritten window the text is unchanged; inside it is `t`. */
  lemma OverwriteAt(s: string, i: nat, t: string, k: nat)
    requires i + |t| <= |s| && k < |s|
    ensures k < i || i + |t| <= k ==> Overwrite(s, i, t)[k] == s[k]
    ensures i <= k < i + |t| ==> Overwrite(s, i, t)[k] == t[k - i]
  {
    var a, c := s[..i] + t, s[i + |t|..];
    assert Overwrite(s, i, t) == a + c;
    if k < |a| {
      assert (a + c)[k] == a[k];
    } else {
      assert (a + c)[k] == c[k - |a|];
    }
  }

  /** `n` space characters. */
  function Spaces(n: nat): (r: string)
    ensures |r| == n && forall k :: 0 <= k < n ==> r[k] == ' '
  {
    seq(n, _ => ' ')
  }

  /** `new Array(1 + n).join(' ')`: the separator written between `n + 1` empty strings. */
  function BlankRun(n: nat): string
  {
    Join(seq(n + 1, _ => ""), " ")
  }

  lemma {:induction false} BlankRunIsSpaces(n: nat)
    ensures BlankRun(n) == Spaces(n)
  {
    if n > 0 {
      BlankRunIsSpaces(n - 1);
      assert seq(n + 1, _ => "")[1..] == seq(n, _ => "");
    }
  }

  /**
   * `x`, extended with spaces to `width` when it is shorter (the `replaceLine`
   * closure): the result is never shorter than `width`, starts with `x`, and
   * everything after `x` is a space.
   */
  function Pad(x: string, width: nat): (r: string)
    ensures |r| == if |x| >= width then |x| else width
    ensures r[..|x|] == x
    ensures forall k :: |x| <= k < |r| ==> r[k] == ' '
  {
    if |x| >= width then x
    else
      BlankRunIsSpaces(width - |x|);
      x + BlankRun(width - |x|)
  }

  /** Padding a string no wider than `width` appends exactly the missing spaces. */
  lemma PadShort(x: string, width: nat)
    requires |x| <= width
    ensures Pad(x, width) == x + Spaces(width - |x|)
  {
    var r := Pad(x, width);
    assert r == r[..|x|] + r[|x|..];
  }

  /** A character that is not a space and not in `x` is not in `Pad(x, width)`. */
  lemma PadAvoids(x: string, width: nat, c: char)
    requires c != ' ' && c !in x
    ensures c !in Pad(x, width)
  {
    var r := Pad(x, width);
    forall k | 0 <= k < |r|
      ensures r[k] != c
    {
      if k < |x| {
        assert r[k] == r[..|x|][k];
      }
    }
  }

  /** The decimal digit for `d`. */
  function Digit(d: nat): (c: char)
    requires d < 10
    ensures '0' <= c <= '9' && c as int - '0' as int == d
  {
    ('0' as int + d) as char
  }

  /** `String(n)` for a non-negative integer: its decimal digits, no leading zero. */
  function DecimalString(n: nat): (r: string)
    ensures |r| >= 1
    ensures forall k :: 0 <= k < |r| ==> '0' <= r[k] <= '9'
    ensures r[0] == '0' ==> n == 0
  {
    if n < 10 then [Digit(n)] else DecimalString(n / 10) + [Digit(n % 10)]
  }

  /** The value of a string of decimal digits. */
  function DecimalValue(s: string): nat
    requires forall k :: 0 <= k < |s| ==> '0' <= s[k] <= '9'
  {
    if s == [] then 0
    else DecimalValue(s[..|s| - 1]) * 10 + (s[|s| - 1] as int - '0' as int)
  }

  /** Reading the decimal rendering back gives the number. */
  lemma {:induction false} DecimalRoundTrip(n: nat)
    ensures DecimalValue(DecimalString(n)) == n
  {
    if n >= 10 {
      DecimalRoundTrip(n / 10);
      var s := DecimalString(n);
      assert s == DecimalString(n / 10) + [Digit(n % 10)];
      assert s[..|s| - 1] == DecimalString(n / 10);
      assert s[|s| - 1] as int - '0' as int == n % 10;
    }
  }
}
