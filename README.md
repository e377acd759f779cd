# TypeScript source handler for Meteor, modelled in Dafny

This project models the core of a Meteor build plugin that compiles `.ts`
files with the TypeScript compiler. The plugin lives in
`plugin/compile-typescript.js`. The model covers five parts of it:

- `stripExportedVars` removes a package's exported names from the first
  top-level `var` line of the generated JavaScript. It pads the rewritten
  line with spaces, so the code keeps its width and source-map positions
  stay valid.
- `getDiagnostics` turns the compiler's diagnostics into the error text the
  plugin raises.
- `endsWith` is the suffix test the handler uses to skip `.d.ts` files.
- `compile` starts once the compiler has answered. It raises the diagnostics
  report on a failed check and neutralises the compiler's own
  `//# sourceMappingURL` comment. It then strips the exports, embeds the
  source in the source map and appends one `_dummyName<i>` placeholder per
  existing name. Finally it hands the result to the build step.
- `handler` compiles every input except declaration files.

Modules:

- `Wrappers`: `Option` and `Result`.
- `Text`: the JavaScript string operations the plugin uses, each with its
  laws:
  - `String.prototype.indexOf`;
  - `split` and `join` with a string separator;
  - the `new Array(1 + n).join(' ')` padding idiom;
  - decimal rendering of an index.
- `StripExports`: `stripExportedVars`. The specification function is
  `Stripped`. The method `StripExportedVars` rewrites an array of lines in
  place, as the source does, and is proved equal to it.
- `Diagnostics`: `getDiagnostics`. The specification function is `Report`;
  the method `GetDiagnostics` has the source's two nested loops.
- `SourceMaps`: the marker replacement, the placeholder names, and a
  `SourceMap` class whose `names` and `sourcesContent` fields `Reconcile`
  updates in place.
- `Plugin`: `EndsWith`, `Compile` and `Handle`.

The main results:

- The stripped code has the same length as the generated code.
- Every newline stays in the same place.
- Only the first candidate `var` line changes.
- The surviving names re-parse to exactly the non-exported names.
- After neutralising, the markers left are exactly the input's markers other
  than the first.
- The report is empty exactly when there is no diagnostic.
- The name table keeps every original index and adds the placeholder for
  index `i` at `n + i`.

## Model

| member | source | states |
|---|---|---|
| Text.Find | plugin/compile-typescript.js:131 | The first index at which the pattern occurs: the pattern occurs there and at no earlier index; `None` only when it occurs nowhere (the search `replace` and `split` perform) |
| Text.FindChar | plugin/compile-typescript.js:43 | `indexOf` of a one-character string is -1 exactly when the character is not in the string |
| Text.Split | plugin/compile-typescript.js:10 | `split` returns at least one piece and no piece contains the separator |
| Text.JoinSplit | plugin/compile-typescript.js:72 | Joining the lines of a split with the same separator gives back the original source |
| Text.Join | plugin/compile-typescript.js:72 | `parts.join(sep)`: the pieces in order with the separator between neighbours; its laws are `Text.JoinSplit`, `Text.SplitJoin` and `Text.JoinAvoids` |
| Text.SplitJoin | plugin/compile-typescript.js:57-60 | For a separator of one character or `", "`, splitting the join of separator-free pieces gives back the pieces |
| Text.SplitAvoids | plugin/compile-typescript.js:10 | A character absent from the string is absent from every piece of its split |
| Text.JoinAvoids | plugin/compile-typescript.js:72 | Joining pieces that lack a character, with a separator that lacks it, gives a string without it |
| Text.OverwriteAt | plugin/compile-typescript.js:131 | Overwriting a window in place keeps every character outside it and puts the new text inside it |
| Text.Overwrite | plugin/compile-typescript.js:131 | A window of the string replaced by a text of the same width; its contract keeps the length, and `Text.OverwriteAt` gives every character |
| Text.BlankRunIsSpaces | plugin/compile-typescript.js:53 | `new Array(1 + n).join(' ')` is exactly n spaces |
| Text.BlankRun | plugin/compile-typescript.js:53 | `new Array(1 + n).join(' ')`, written as n + 1 empty strings joined with a space; `Text.BlankRunIsSpaces` proves it is n spaces |
| Text.Pad | plugin/compile-typescript.js:49-55 | `replaceLine`: the result is as long as the longer of the text and the old line, starts with the text and has only spaces after it |
| Text.PadShort | plugin/compile-typescript.js:50-54 | A text no longer than the line is followed by exactly enough spaces to reach the line's width |
| Text.PadAvoids | plugin/compile-typescript.js:49-55 | Padding never introduces a newline |
| Text.DecimalString | plugin/compile-typescript.js:140 | The decimal rendering of an index is a non-empty string of digits with no leading zero |
| Text.DecimalRoundTrip | plugin/compile-typescript.js:140 | Reading the decimal rendering back gives the index |
| StripExports.MatchVarLine | plugin/compile-typescript.js:36 | `/^var (.+)([,;])$/.exec`: when it matches, the line is `var `, a non-empty name list without line terminators, and `,` or `;`; every such reading of the line is the match it returns, so a `None` means the line does not match |
| StripExports.IsCandidate | plugin/compile-typescript.js:36-44 | The line the loop stops at: it matches the `var` pattern and its name list has no `=` |
| StripExports.DifferenceMembers | plugin/compile-typescript.js:58 | `_.difference`: a value survives exactly when it is in the list and not exported |
| StripExports.DifferenceAppend | plugin/compile-typescript.js:58 | `_.difference` works element by element and keeps the order |
| StripExports.DifferenceJoinShorter | plugin/compile-typescript.js:57-60 | The joined survivors are never longer than the joined names |
| StripExports.Difference | plugin/compile-typescript.js:58 | `_.difference(vars, exports)`: the names not exported, in order, repeats kept; its laws are `StripExports.DifferenceMembers` and `StripExports.DifferenceAppend` |
| StripExports.Replacement | plugin/compile-typescript.js:57-68 | The text `replaceLine` receives: `var `, the surviving names joined with `, ` and the terminator; `''` when every name of a `;` line is exported; `'var'` when every name of a `,` line is. `StripExports.ReplacementFits` bounds it |
| StripExports.RewriteLine | plugin/compile-typescript.js:49-68 | The candidate line after `replaceLine`, the replacement padded to the line's width; `StripExports.RewriteLineShape` gives its exact form |
| StripExports.ReplacementFits | plugin/compile-typescript.js:57-68 | Each of the three replacements (surviving declaration, `''`, `'var'`) is no longer than the matched line and holds no newline |
| StripExports.RewriteLineShape | plugin/compile-typescript.js:49-68 | The rewritten line has exactly the old width and no newline. It is the surviving declaration followed by spaces, all spaces when every name of a `;` line was exported, or `var` followed by spaces when every name of a `,` line was exported |
| StripExports.Survivors | plugin/compile-typescript.js:57-58 | The declared names split on `", "` minus the exports, in order; its laws are `StripExports.DifferenceMembers` and `StripExports.SurvivorsReparse` |
| StripExports.SurvivorsReparse | plugin/compile-typescript.js:57-60 | The rewritten name list splits back into exactly the surviving names, and none of them is exported |
| StripExports.FirstCandidate | plugin/compile-typescript.js:34-44 | The loop stops at the first line that matches and has no `=` in its name list; no earlier line is such a line, and `None` means none is |
| StripExports.RewriteFirstShape | plugin/compile-typescript.js:34-70 | The line count and every line's width are kept; every line except the first candidate is unchanged; the candidate becomes its rewritten form |
| StripExports.RewriteFirst | plugin/compile-typescript.js:34-70 | The array of lines after the loop: unchanged without a candidate, otherwise the first candidate replaced by its rewritten form; `StripExports.RewriteFirstShape` states what changes |
| StripExports.Stripped | plugin/compile-typescript.js:7-73 | The value `stripExportedVars` returns: the source when there are no exports, otherwise the rewritten lines joined with newlines; its properties are `StripExports.StrippedLines`, `StripExports.NoCandidateNoChange` and `StripExports.StrippedKeepsLayout` |
| StripExports.StrippedLines | plugin/compile-typescript.js:10-72 | With exports present, splitting the result into lines gives the rewritten lines |
| StripExports.NoCandidateNoChange | plugin/compile-typescript.js:34-72 | Without a candidate line the source comes back unchanged |
| StripExports.JoinKeepsLayout | plugin/compile-typescript.js:72 | Joining lines of equal widths and without newlines puts the newlines in the same places |
| StripExports.StrippedKeepsLayout | plugin/compile-typescript.js:46-72 | The stripped source has the width of the input and its newlines at the same positions, so every source-map record still points at a valid character |
| StripExports.StripExportedVars | plugin/compile-typescript.js:7-73 | The in-place loop over the array of lines returns `Stripped(source, exports)`, and the source itself when there are no exports |
| StripExports.ExampleDropOnlyName | plugin/compile-typescript.js:64-65 | `var a;` with `a` exported becomes six spaces |
| StripExports.ExampleDropOnlyNameContinued | plugin/compile-typescript.js:66-67 | `var a,` with `a` exported becomes `var` and three spaces |
| StripExports.ExampleAssignmentSkipped | plugin/compile-typescript.js:36-44 | `var a = 1, b;` matches the pattern but is skipped because of its `=` |
| Diagnostics.GetDiagnostics | plugin/compile-typescript.js:76-87 | The nested loops produce `Report(units)`: every diagnostic in unit order, then diagnostic order, each followed by `\n\r` |
| Diagnostics.UnitReport | plugin/compile-typescript.js:81-84 | The inner loop's text for one unit: each diagnostic followed by `\n\r`, in order |
| Diagnostics.Report | plugin/compile-typescript.js:76-87 | `getDiagnostics(units)`: the unit reports in unit order; `Diagnostics.ReportAppend` and `Diagnostics.ReportEmptyIff` are its laws |
| Diagnostics.UnitReportAppend | plugin/compile-typescript.js:81-84 | The report of one unit's diagnostics is compositional over concatenation |
| Diagnostics.ReportAppend | plugin/compile-typescript.js:79-85 | The report of a sequence of units is compositional over concatenation |
| Diagnostics.ReportOne | plugin/compile-typescript.js:83 | A single diagnostic is reported as its text followed by `\n\r` |
| Diagnostics.UnitReportLength | plugin/compile-typescript.js:83 | Each diagnostic adds at least two characters |
| Diagnostics.ReportEmptyIff | plugin/compile-typescript.js:76-87 | The report is empty exactly when no unit has a diagnostic |
| Diagnostics.ExampleTwoUnits | plugin/compile-typescript.js:79-85 | Two units with diagnostics `X` and `Y` give `X\n\rY\n\r` |
| Plugin.EndsWith | plugin/compile-typescript.js:89-92 | A true answer means the string exists, is at least as long as the suffix and is some prefix followed by the suffix |
| Plugin.EndsWithComplete | plugin/compile-typescript.js:89-92 | Every string ending in the suffix is recognised, and `null` never is |
| Plugin.Compile | plugin/compile-typescript.js:109-151 | A failed check on the resolved files or on the compiled unit gives the diagnostics report as the error and leaves the map alone. Empty code adds nothing. Otherwise the added file is `<input>.js` with the input as source path, the data is the neutralised and stripped code, and the map is reconciled |
| Plugin.CompileOutcome | plugin/compile-typescript.js:109-151 | The four outcomes of `compile` and, for each, the map's new state: the two diagnostics errors, no file for empty code, and the emitted record with the reconciled map |
| Plugin.Handle | plugin/compile-typescript.js:160-167 | `.d.ts` inputs produce nothing and leave the map alone; every other input is compiled |
| Plugin.EmittedKeepsLayout | plugin/compile-typescript.js:131-133 | The emitted code has the width of the generated code and its newlines at the same positions |
| SourceMaps.NeutraliseMapUrl | plugin/compile-typescript.js:131 | The replacement keeps the width of the code and changes nothing when there is no marker |
| SourceMaps.MarkerNoSelfOverlap | plugin/compile-typescript.js:131 | No occurrence of `//# sourceMappingURL` starts inside another one |
| SourceMaps.NeutralisedAt | plugin/compile-typescript.js:131 | Outside the first marker the code is unchanged; inside it holds `// IGNORING THIS:   ` |
| SourceMaps.NeutralisedOccursAt | plugin/compile-typescript.js:131 | After the replacement a marker starts at a position exactly when one started there before and it was not the first |
| SourceMaps.NeutraliseRemovesFirstMarker | plugin/compile-typescript.js:131 | The markers left are exactly the input's markers other than the first, since a regex without the `g` flag replaces once and the inert text cannot form a new marker with its neighbours |
| SourceMaps.NeutraliseKeepsLayout | plugin/compile-typescript.js:128-131 | The replacement keeps the width and every newline, so the map's positions are unaffected |
| SourceMaps.DummyNamesAt | plugin/compile-typescript.js:139-140 | There are n placeholders and the one at index i is `_dummyName` followed by i |
| SourceMaps.DummyName | plugin/compile-typescript.js:140 | `'_dummyName' + i` |
| SourceMaps.DummyNames | plugin/compile-typescript.js:139-140 | The array the loop builds: the placeholders for indices 0 to n - 1 in order; `SourceMaps.DummyNamesAt` states its length and entries |
| SourceMaps.ReconciledNames | plugin/compile-typescript.js:141 | The new name table is twice as long, keeps the original names at their indices and holds the placeholder for i at n + i |
| SourceMaps.SourceMap.constructor | plugin/compile-typescript.js:136 | The parsed map holds the fields the compiler wrote |
| SourceMaps.Reconcile | plugin/compile-typescript.js:137-141 | `sourcesContent` becomes the one-element list `[source]` holding the original source; `names` becomes the old names followed by one placeholder per old name; no other field changes |

## Left out

- Fibers and futures, and the asynchronous callbacks of `typescript.resolve` and `typescript.compile`. The model starts once the compiler has answered: `CompilerRun` carries what the two `check` calls returned, their units' diagnostics and the generated code.
- `typescript.reset`, `resolve`, `check` and `compile` are foreign code. The choice of EcmaScript3 for browser targets and EcmaScript5 otherwise feeds only the compiler, so it is not modelled.
- `JSON.parse` of the compiler's map and `JSON.stringify` of the result. The map is given already parsed, as a `SourceMap` object with the seven fields of a version 3 map. The parsed JavaScript object carries through whatever fields the compiler wrote. The model does not represent extra fields or missing optional fields such as `file` or `sourceRoot`. Only `names` and `sourcesContent` are read or written.
- `compileStep.read()` is an input (`CompileStep.sourceText`). `compileStep.addJavaScript` is modelled as the returned `JavaScriptFile`. `Plugin.registerSourceHandler` is a registration side effect.
- Thrown errors are modelled as `Err` results that carry the message.
- A `null` or missing `declaredExports` behaves like an empty list and is modelled as one. A `null` or `undefined` generated code behaves like the empty string and is modelled as `""`.
- Strings are sequences of Unicode scalar values, while JavaScript counts UTF-16 code units. For characters outside the Basic Multilingual Plane, widths and padding lengths would differ.
- The general regular-expression engine. Only the two patterns the plugin uses are encoded: the `var` line shape and the literal marker.
- `for … in` also visits inherited enumerable properties. `GetDiagnostics` visits exactly the units and diagnostics in index order.
- Diagnostics are given as their `toString()` text.
- A compiled unit with no element, where `compiledUnit[0]` would throw, is not modelled.
- A map without a `names` array, where `names.length` would throw, is not modelled.
- SourceMaps.NeutraliseMapUrl: its own contract states only width and the no-marker case. The placement of the inert text and the remaining markers are stated by `SourceMaps.NeutralisedAt` and `SourceMaps.NeutraliseRemovesFirstMarker`.
