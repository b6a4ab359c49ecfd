# deadcode, modelled in Dafny

`deadcode` reports the top-level declarations of Go packages that nothing
refers to. After the loader has parsed and type-checked the packages, the tool
handles each package on its own. It collects every object that an identifier
of the package's files resolves to, and it reports each top-scope name that is
not in that set, apart from three exclusions and a visibility rule:

- a package named `main` never reports its own `main`;
- nothing declared in cgo's pseudo-file `C` is reported;
- function-typed objects named `Test…` in a `_test.go` file are never reported;
- outside a package named `main`, exported names are never reported.

The per-package results are concatenated and sorted by source position. A
non-empty report ends the run with exit status 2.

The model uses immutable values throughout:

- `Objects.Symbol` is a top-level object. It records its name, its `token.Pos`
  as an integer, the file name its position resolves to, and whether its type
  is a `*types.Signature`.
- `Deadcode.Package` is a package. It holds the package name, its files and its
  top scope in `Scope.Names()` order. Each file is the sequence of what
  `Info.Uses` holds for its identifiers.

Files:

- `names.dfy` holds `strings.HasPrefix`/`HasSuffix`, `filepath.Base` and
  `ast.IsExported`.
- `seqs.dfy` holds facts about order-preserving subsequences.
- `objects.dfy` holds the `objects` sort adapter and a sort meeting the
  contract of `sort.Sort`.
- `deadcode.dfy` holds `doPackage`.
- `report.dfy` holds `process` and the exit decision.

Two facts about the code shape what the model promises:

- A package counts as a command (whose `main` is exempt and whose exported
  names may be reported) exactly when its name is `main`
  (deadcode/deadcode.go:109, 127).
- The report is ordered by `sort.Sort` (deadcode/deadcode.go:86), which is
  not stable, over packages taken from the map `prog.Imported`
  (deadcode/deadcode.go:82), whose iteration order Go leaves unspecified. So
  the only promises are that the report is sorted by position and is a
  permutation of the concatenated results. Nothing is claimed about the order
  among objects at the same position.

## Model

| member | source | states |
|---|---|---|
| Names.Base | deadcode/deadcode.go:113 | The base name is never empty. It is either "/" or contains no separator. The empty path gives ".". |
| Names.BaseOfJoin | deadcode/deadcode.go:113-118 | For any directory, `dir/name` has base `name`, so a file named `C` is recognised wherever it lives. |
| Objects.SortByPos | deadcode/deadcode.go:134-138 | The result is a permutation (equal multisets) of the input, and no later element is `Less` (earlier position) than an earlier one. |
| Deadcode.CollectUses | deadcode/deadcode.go:91-104 | The loop over every file and identifier computes exactly the used set. |
| Deadcode.UsesInIff | deadcode/deadcode.go:93-103 | An object is used by a file exactly when some identifier of that file resolves to it. |
| Deadcode.UsedSetIff | deadcode/deadcode.go:91-104 | An object is in the used set exactly when some identifier of some file of the package resolves to it, wherever that identifier stands. |
| Deadcode.DoPackage | deadcode/deadcode.go:90-132 | The loop mirrors the source: the `main` check, then `C`, then tests, then unused-and-visible. It returns exactly the dead objects of the top scope, in scope order. |
| Deadcode.SurvivorsIff | deadcode/deadcode.go:106-131 | An object survives the filter exactly when it is in the scanned names, unused, not excluded and reportable by visibility. |
| Deadcode.UnusedIff | deadcode/deadcode.go:106-131 | Completeness and soundness in both directions. A symbol is reported exactly when all of these hold: it is in the top scope, no identifier uses it, it is not the command's `main`, it is not in `C`, it is not a test function, and the package is `main` or the name is unexported. |
| Deadcode.UsedNeverReported | deadcode/deadcode.go:127 | An object that any identifier of the package resolves to is never reported. This holds even for a use inside the object's own body, which is the accepted recursion blind spot. |
| Deadcode.MainExemptOnlyInCommands | deadcode/deadcode.go:109-111 | In a package named `main`, `main` is never reported. In any other package, an unused `main` outside `C` is reported. |
| Deadcode.CgoNeverReported | deadcode/deadcode.go:113-118 | An object whose file has base name `C` is never reported, whatever its name, use or visibility. |
| Deadcode.TestFunctionsNeverReported | deadcode/deadcode.go:120-125 | A signature-typed object named `Test…` whose file ends in `_test.go` is never reported. |
| Deadcode.TestNamesHiddenOutsideCommands | deadcode/deadcode.go:127 | Outside a package named `main`, a `Test…` name is never reported in any case, because it is exported. |
| Deadcode.ExportedReportedOnlyInCommands | deadcode/deadcode.go:127 | Outside `main`, an exported name is never reported. Inside `main`, an unused exported name that no exclusion covers is reported. |
| Deadcode.SurvivorsSubsequence | deadcode/deadcode.go:107-130 | The filtered names are picked from the scanned names at strictly increasing positions. |
| Deadcode.UnusedOrderedAndDistinct | deadcode/deadcode.go:106-131 | The per-package result is an order-preserving subsequence of the top scope. When the scope has no repeats, each object appears at most once. |
| Deadcode.MoreFilesReportNoMore | deadcode/deadcode.go:54-58 | Loading the test files, as `-test` does, adds uses and may add declarations to the top scope. An object of the smaller scope that is reported with the extra files is also reported without them. |
| Report.AllUnusedIff | deadcode/deadcode.go:81-85 | An object is in the concatenation exactly when some package's result contains it. |
| Report.AllUnusedEmptyIff | deadcode/deadcode.go:81-85 | The concatenation is empty exactly when no package has a dead object. |
| Report.Process | deadcode/deadcode.go:76-88 | The report is sorted by position and is a permutation of the concatenated per-package results. |
| Report.ReportIff | deadcode/deadcode.go:81-87 | Any permutation of the concatenation, the sorted report included, holds an object exactly when some package reports it. |
| Report.ExitStatus | deadcode/deadcode.go:35-37 | The status is `deadCodeFoundExit` (2) exactly when the report is non-empty, and 0 (the implicit success of `main`) exactly when it is empty. |
| Report.Run | deadcode/deadcode.go:35-37 | A load error gives the fatal status and no report. Otherwise the status is 2 exactly when some package has a dead object (equivalently, the report is non-empty), and 0 otherwise. |

## Left out

- Package loading and type checking (`loader.Config`, `Import`, `ImportWithTests`, `Load`): these belong to the Go front end. Each package's files, identifier resolutions and top scope are inputs. A load error is an input to `Report.Run`, and its message is not formatted.
- `ast.Inspect` and the `Info.Uses` map: each file is reduced to the sequence of what `Uses` holds for its identifiers.
- `Scope.Names()` returns names in sorted order and `Lookup` maps them back to objects. The model takes the top scope as a sequence in that order and does not re-sort it.
- Objects.Symbol: Go compares `types.Object` values by pointer identity in the `used` map (deadcode/deadcode.go:91, 127); the model compares symbols by their fields (name, position, file, signature flag). The two agree for objects declared in loaded source, whose positions are distinct.
- `token.Pos` and `Fset.Position`: a position is an integer and the file name is stored on the symbol. Line and column rendering is not modelled.
- Names.Base: models `filepath.Base` with `/` as the only separator. Windows volume names and `\` separators are not modelled.
- Names.IsExported: `ast.IsExported` tests `unicode.IsUpper` on the first rune. The model accepts only the ASCII letters `A`–`Z`, so a name starting with a non-ASCII upper-case letter is treated as unexported.
- Objects.SortByPos: Go's `sort.Sort` algorithm is not modelled, only its contract: a sorted permutation with no promise about ties. The functional insertion sort stands in for it.
- Command-line glue is not modelled: the `-test` flag, the default root `.`, the `errorf` path relativisation and message format, and writing to standard error. They are I/O. The effect of `-test` appears only as different input files and a larger top scope, see `Deadcode.MoreFilesReportNoMore`.
- `nokia/nbf` is not part of this model. It is a separate message codec that `deadcode` does not use.
