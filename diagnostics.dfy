/**
 * `getDiagnostics`: the error text raised when the compiler reports
 * problems. Each unit carries the string forms of its diagnostics, and the
 * report is every one of them, in unit order and then diagnostic order,
 * each followed by `"\n\r"`.
 */
module Diagnostics {

  /** The line terminator written after every diagnostic. */
  const Terminator := "\n\r"

  /** The report for the diagnostics of one unit. */
  function UnitReport(diagnostics: seq<string>): string
  {
    if diagnostics == [] then ""
    else UnitReport(diagnostics[..|diagnostics| - 1]) + diagnostics[|diagnostics| - 1] + Terminator
  }

  /** The report for a sequence of units. */
  function Report(units: seq<seq<string>>): string
  {
    if units == [] then ""
    else Report(units[..|units| - 1]) + UnitReport(units[|units| - 1])
  }

  /** `getDiagnostics(units)`: nested loops appending each diagnostic and its terminator to `err`. */
  method GetDiagnostics(units: seq<seq<string>>) returns (err: string)
    ensures err == Report(units)
  {
    err := "";
    for n := 0 to |units|
      invariant err == Report(units[..n])
    {
      var diagnostics := units[n];
      for m := 0 to |diagnostics|
        invariant err == Report(units[..n]) + UnitReport(diagnostics[..m])
      {
        err := err + diagnostics[m] + Terminator;
        assert diagnostics[..m + 1][..m] == diagnostics[..m];
      }
      assert diagnostics[..|diagnostics|] == diagnostics;
      assert units[..n + 1][..n] == units[..n];
    }
    assert units[..|units|] == units;
  }

  /** The report of one unit's diagnostics split in two is the two reports in order. */
  lemma {:induction false} UnitReportAppend(a: seq<string>, b: seq<string>)
    ensures UnitReport(a + b) == UnitReport(a) + UnitReport(b)
    decreases |b|
  {
    if b == [] {
      assert a + b == a;
    } else {
      var b', last := b[..|b| - 1], b[|b| - 1];
      assert (a + b)[..|a + b| - 1] == a + b';
      assert (a + b)[|a + b| - 1] == last;
      calc {
        UnitReport(a + b);
        UnitReport(a + b') + last + Terminator;
        { UnitReportAppend(a, b'); }
        UnitReport(a) + UnitReport(b') + last + Terminator;
        UnitReport(a) + (UnitReport(b') + last + Terminator);
        UnitReport(a) + UnitReport(b);
      }
    }
  }

  /** The report of units split in two is the two reports in order. */
  lemma {:induction false} ReportAppend(a: seq<seq<string>>, b: seq<seq<string>>)
    ensures Report(a + b) == Report(a) + Report(b)
    decreases |b|
  {
    if b == [] {
      assert a + b == a;
    } else {
      var b', last := b[..|b| - 1], b[|b| - 1];
      assert (a + b)[..|a + b| - 1] == a + b';
      assert (a + b)[|a + b| - 1] == last;
      calc {
        Report(a + b);
        Report(a + b') + UnitReport(last);
        { ReportAppend(a, b'); }
        Report(a) + Report(b') + UnitReport(last);
        Report(a) + (Report(b') + UnitReport(last));
        Report(a) + Report(b);
      }
    }
  }

  /** A single diagnostic is reported as its text followed by the terminator. */
  lemma ReportOne(d: string)
    ensures Report([[d]]) == d + "\n\r"
  {
    assert [d][..0] == [];
    assert UnitReport([d]) == d + Terminator;
    assert [[d]][..0] == [];
    assert Report([[d]]) == Report([]) + UnitReport([d]);
  }

  /** Each diagnostic adds at least the two characters of its terminator. */
  lemma {:induction false} UnitReportLength(diagnostics: seq<string>)
    ensures |UnitReport(diagnostics)| >= 2 * |diagnostics|
  {
    if diagnostics != [] {
      UnitReportLength(diagnostics[..|diagnostics| - 1]);
    }
  }

  /** The report is empty exactly when no unit has a diagnostic, so an empty report means success. */
  lemma {:induction false} ReportEmptyIff(units: seq<seq<string>>)
    ensures Report(units) == "" <==> forall n :: 0 <= n < |units| ==> units[n] == []
  {
    if units != [] {
      var init := units[..|units| - 1];
      ReportEmptyIff(init);
      UnitReportLength(units[|units| - 1]);
      assert forall n :: 0 <= n < |init| ==> init[n] == units[n];
    }
  }

  /** Two units with one diagnostic each, `X` and `Y`, give `X\n\rY\n\r`. */
  lemma ExampleTwoUnits(x: string, y: string)
    ensures Report([[x], [y]]) == x + "\n\r" + y + "\n\r"
  {
    ReportAppend([[x]], [[y]]);
    ReportOne(x);
    ReportOne(y);
    assert [[x]] + [[y]] == [[x], [y]];
  }
}
