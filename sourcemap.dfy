/**
 * Source-map reconciliation inside `compile`: the compiler's own
 * `//# sourceMappingURL` comment is neutralised without changing the width
 * of the code, the map embeds the original source, and one placeholder name
 * per existing entry is appended to its name table.
 */
module SourceMaps {
  import opened Wrappers
  import opened Text

  /** The text `/\/\/# sourceMappingURL/` matches. */
  const Marker := "//# sourceMappingURL"

  /** What the first marker is replaced with; as wide as the marker. */
  const Inert := "// IGNORING THIS:   "

  /**
   * `code.replace(/\/\/# sourceMappingURL/, '// IGNORING THIS:   ')`: the
   * first occurrence of the marker, if any, overwritten in place.
   */
  function NeutraliseMapUrl(code: string): (r: string)
    ensures |r| == |code|
    ensures Find(code, Marker).None? ==> r == code
  {
    match Find(code, Marker)
    case None => code
    case Some(i) => Overwrite(code, i, Inert)
  }

  /** The characters of the marker that the proofs below rely on. */
  lemma MarkerShape()
    ensures |Marker| == 20 && Marker[0] == '/' && Marker[1] == '/' && Marker[2] == '#'
    ensures forall k :: 2 <= k < 20 ==> Marker[k] != '/'
    ensures forall k :: 0 <= k < 20 ==> Marker[k] != '\n'
  {
  }

  /** The characters of the inert text that the proofs below rely on. */
  lemma InertShape()
    ensures |Inert| == 20 && Inert[0] == '/' && Inert[1] == '/' && Inert[2] == ' '
    ensures forall k :: 2 <= k < 20 ==> Inert[k] != '/'
    ensures forall k :: 0 <= k < 20 ==> Inert[k] != '\n'
  {
  }

  /** The marker cannot overlap itself: inside one occurrence no other one starts. */
  lemma MarkerNoSelfOverlap(s: string, i: nat, j: int)
    requires OccursAt(s, Marker, i)
    requires i < j < i + |Marker|
    ensures !OccursAt(s, Marker, j)
  {
    MarkerShape();
    if j == i + 1 {
      assert s[i + 2] == s[i..i + 20][2];
      MismatchAt(s, Marker, j, i + 2);
    } else if j < |s| {
      assert s[j] == s[i..i + 20][j - i];
      MismatchAt(s, Marker, j, j);
    }
  }

  /** Left and right of the first marker the neutralised code is the input; where the marker was, it holds the inert text. */
  lemma NeutralisedAt(code: string, i: nat, k: nat)
    requires Find(code, Marker) == Some(i)
    requires k < |code|
    ensures k < i || i + |Marker| <= k ==> NeutraliseMapUrl(code)[k] == code[k]
    ensures i <= k < i + |Marker| ==> NeutraliseMapUrl(code)[k] == Inert[k - i]
  {
    MarkerShape();
    InertShape();
    OverwriteAt(code, i, Inert, k);
  }

  /** A start position whose window lies wholly before or wholly after the neutralised marker is unaffected. */
  lemma NeutralisedAwayFrom(code: string, i: nat, j: nat)
    requires Find(code, Marker) == Some(i)
    requires j + |Marker| <= i || j >= i + |Marker|
    ensures OccursAt(NeutraliseMapUrl(code), Marker, j) <==> OccursAt(code, Marker, j)
  {
    var r := NeutraliseMapUrl(code);
    var n := |Marker|;
    if j + n <= |r| {
      forall k | j <= k < j + n
        ensures r[k] == code[k]
      {
        NeutralisedAt(code, i, k);
      }
      SameWindow(r, code, j, n);
    }
  }

  /** No marker starts in a window that overlaps the inert text. */
  lemma NeutralisedNear(code: string, i: nat, j: nat)
    requires Find(code, Marker) == Some(i)
    requires i < j + |Marker| && j < i + |Marker|
    ensures !OccursAt(NeutraliseMapUrl(code), Marker, j)
  {
    var r := NeutraliseMapUrl(code);
    MarkerShape();
    InertShape();
    if j < i - 1 {
      NeutralisedAt(code, i, i);
      MismatchAt(r, Marker, j, i);
    } else if j == i - 1 {
      NeutralisedAt(code, i, i + 1);
      MismatchAt(r, Marker, j, i + 1);
    } else if j <= i + 1 {
      NeutralisedAt(code, i, i + 2);
      MismatchAt(r, Marker, j, i + 2);
    } else if j < |r| {
      NeutralisedAt(code, i, j);
      MismatchAt(r, Marker, j, j);
    }
  }

  /** One start position `j`: after neutralising the first marker at `i`, a marker starts at `j` exactly when one did before and `j` is not `i`. */
  lemma NeutralisedOccursAt(code: string, i: nat, j: nat)
    requires Find(code, Marker) == Some(i)
    ensures OccursAt(NeutraliseMapUrl(code), Marker, j) <==> OccursAt(code, Marker, j) && j != i
  {
    if j + |Marker| <= i || j >= i + |Marker| {
      NeutralisedAwayFrom(code, i, j);
    } else {
      NeutralisedNear(code, i, j);
      if j > i {
        MarkerNoSelfOverlap(code, i, j);
      }
    }
  }

  /**
   * The markers left in the result are exactly the markers of the input
   * other than the first: that one is neutralised and the inert text cannot
   * form a new one with its neighbours.
   */
  lemma NeutraliseRemovesFirstMarker(code: string)
    ensures forall j: nat :: OccursAt(NeutraliseMapUrl(code), Marker, j) <==> OccursAt(code, Marker, j) && Some(j) != Find(code, Marker)
  {
    match Find(code, Marker)
    case None =>
    case Some(i) =>
      forall j: nat
        ensures OccursAt(NeutraliseMapUrl(code), Marker, j) <==> OccursAt(code, Marker, j) && j != i
      {
        NeutralisedOccursAt(code, i, j);
      }
  }

  /** Neutralising keeps the width of the code and every newline where it was. */
  lemma NeutraliseKeepsLayout(code: string)
    ensures var r := NeutraliseMapUrl(code);
      |r| == |code| && forall k :: 0 <= k < |r| ==> (r[k] == '\n' <==> code[k] == '\n')
  {
    match Find(code, Marker)
    case None =>
    case Some(i) =>
      var r := NeutraliseMapUrl(code);
      MarkerShape();
      InertShape();
      forall k | 0 <= k < |r|
        ensures r[k] == '\n' <==> code[k] == '\n'
      {
        if k < i {
          NeutralisedAt(code, i, k);
        } else if k < i + 20 {
          NeutralisedAt(code, i, k);
          OccursAtChar(code, Marker, i, k);
        } else {
          NeutralisedAt(code, i, k);
        }
      }
  }

  /** `'_dummyName' + i`. */
  function DummyName(i: nat): string
  {
    "_dummyName" + DecimalString(i)
  }

  /** The placeholder names pushed for indices `0 .. n - 1`, in order. */
  function DummyNames(n: nat): seq<string>
  {
    if n == 0 then [] else DummyNames(n - 1) + [DummyName(n - 1)]
  }

  /** There are `n` placeholders and the one at index `i` is `_dummyName` followed by `i` in decimal. */
  lemma {:induction false} DummyNamesAt(n: nat)
    ensures |DummyNames(n)| == n
    ensures forall i :: 0 <= i < n ==> DummyNames(n)[i] == DummyName(i)
  {
    if n > 0 {
      DummyNamesAt(n - 1);
    }
  }

  /**
   * The name table after reconciliation: twice as long, the original
   * entries unchanged at their indices (so every index the mappings use
   * still names what it named), and entry `n + i` the placeholder for `i`.
   */
  lemma ReconciledNames(names: seq<string>)
    ensures var r := names + DummyNames(|names|);
      && |r| == 2 * |names|
      && r[..|names|] == names
      && forall i :: 0 <= i < |names| ==> r[|names| + i] == DummyName(i)
  {
    DummyNamesAt(|names|);
  }

  /**
   * The parsed source map. Only `names` and `sourcesContent` are touched;
   * the other fields are carried through as the compiler wrote them.
   */
  class SourceMap {
    var version: int
    var file: string
    var sourceRoot: string
    var sources: seq<string>
    var names: seq<string>
    var mappings: string
    var sourcesContent: seq<string>

    constructor (version: int, file: string, sourceRoot: string, sources: seq<string>,
                 names: seq<string>, mappings: string, sourcesContent: seq<string>)
      ensures this.version == version && this.file == file && this.sourceRoot == sourceRoot
      ensures this.sources == sources && this.names == names && this.mappings == mappings
      ensures this.sourcesContent == sourcesContent
    {
      this.version := version;
      this.file := file;
      this.sourceRoot := sourceRoot;
      this.sources := sources;
      this.names := names;
      this.mappings := mappings;
      this.sourcesContent := sourcesContent;
    }
  }

  /**
   * Embeds the original source and appends one placeholder per existing
   * name; no other field of the map changes.
   */
  method Reconcile(sourceMap: SourceMap, source: string)
    modifies sourceMap`names, sourceMap`sourcesContent
    ensures sourceMap.sourcesContent == [source]
    ensures sourceMap.names == old(sourceMap.names) + DummyNames(|old(sourceMap.names)|)
  {
    sourceMap.sourcesContent := [source];
    var dummyNames: seq<string> := [];
    var i := 0;
    while i < |sourceMap.names|
      invariant 0 <= i <= |sourceMap.names|
      invariant sourceMap.names == old(sourceMap.names)
      invariant dummyNames == DummyNames(i)
    {
      dummyNames := dummyNames + ["_dummyName" + DecimalString(i)];
      i := i + 1;
    }
    sourceMap.names := sourceMap.names + dummyNames;
  }
}
