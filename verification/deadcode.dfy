/** `doPackage`: the unused top-level objects of one type-checked package.
    The used set collects every identifier use the type checker resolved,
    anywhere in any file of the package; the top-scope names are then
    filtered by the entry-point, cgo and test-function exclusions and by
    the visibility rule. */
module Deadcode {
  import opened Names
  import opened Seqs
  import opened Objects

  /** What `Info.Uses` holds for one identifier, in `ast.Inspect` order:
      the object a use resolves to, or nothing (a definition, a blank
      identifier, a field name, ...). */
  datatype Ident = Unresolved | Resolved(obj: Symbol)

  /** The identifiers of one syntax tree. */
  type File = seq<Ident>

  /** A loaded package: its name (`pkg.Pkg.Name()`), its files and its top
      scope, in the order `Scope.Names()` lists it. A scope maps each name
      to one object, so `Names()` never lists a name twice and the scope of
      a loaded package always satisfies `Distinct`; the datatype itself
      does not enforce it, which is why `UnusedOrderedAndDistinct` states
      uniqueness under that condition. */
  datatype Package = Package(name: string, files: seq<File>, scope: seq<Symbol>)

  /** The package name, and entry-point name, of a command. */
  const MainName: string := "main"
  /** The base name of the pseudo-file holding cgo's generated declarations. */
  const CgoFile: string := "C"
  /** The name prefix and file suffix that make a function a test. */
  const TestPrefix: string := "Test"
  const TestFileSuffix: string := "_test.go"

  /** The objects the uses of one file resolve to. */
  function UsesIn(file: File): (uses: set<Symbol>)
  {
    if file == [] then {}
    else
      var last := file[|file| - 1];
      UsesIn(file[..|file| - 1]) + (if last.Resolved? then {last.obj} else {})
  }

  /** The objects used anywhere in the package's files. */
  function UsedSet(files: seq<File>): (used: set<Symbol>)
  {
    if files == [] then {}
    else UsedSet(files[..|files| - 1]) + UsesIn(files[|files| - 1])
  }

  /** Some identifier of some file resolves to `o`. */
  ghost predicate UsedSomewhere(files: seq<File>, o: Symbol) {
    exists f, k | 0 <= f < |files| && 0 <= k < |files[f]| :: files[f][k] == Resolved(o)
  }

  /** Rule 1: a command's own `main`. */
  predicate IsEntryPoint(pkg: Package, s: Symbol) {
    pkg.name == MainName && s.name == MainName
  }

  /** Rule 2: declared in cgo's pseudo-file. */
  predicate InCgoFile(s: Symbol) {
    Base(s.file) == CgoFile
  }

  /** Rule 3: a function-typed object named `Test...` in a `_test.go` file. */
  predicate IsTestFunction(s: Symbol) {
    s.isSignature && HasPrefix(s.name, TestPrefix) && HasSuffix(Base(s.file), TestFileSuffix)
  }

  predicate Excluded(pkg: Package, s: Symbol) {
    IsEntryPoint(pkg, s) || InCgoFile(s) || IsTestFunction(s)
  }

  /** Rule 4: every name of a command may be dead; in any other package
      only unexported names may, since importers outside the program can
      use the exported ones. */
  predicate MayReport(pkg: Package, s: Symbol) {
    pkg.name == MainName || !IsExported(s.name)
  }

  /** `s` is unused and neither excluded nor protected by visibility. */
  predicate IsDead(pkg: Package, used: set<Symbol>, s: Symbol) {
    s !in used && !Excluded(pkg, s) && MayReport(pkg, s)
  }

  /** The dead objects among `syms`, in their order. */
  function Survivors(pkg: Package, used: set<Symbol>, syms: seq<Symbol>): (kept: seq<Symbol>)
  {
    if syms == [] then []
    else
      var last := syms[|syms| - 1];
      Survivors(pkg, used, syms[..|syms| - 1]) + (if IsDead(pkg, used, last) then [last] else [])
  }

  /** What `doPackage` returns for `pkg`. */
  function Unused(pkg: Package): (unused: seq<Symbol>)
  {
    Survivors(pkg, UsedSet(pkg.files), pkg.scope)
  }

  /** The loop over the files: each identifier with an entry in `Uses`
      marks its object used. */
  method CollectUses(files: seq<File>) returns (used: set<Symbol>)
    ensures used == UsedSet(files)
  {
    used := {};
    var f := 0;
    while f < |files|
      invariant 0 <= f <= |files|
      invariant used == UsedSet(files[..f])
    {
      var file := files[f];
      var k := 0;
      while k < |file|
        invariant 0 <= k <= |file|
        invariant used == UsedSet(files[..f]) + UsesIn(file[..k])
      {
        assert file[..k + 1][..k] == file[..k];
        if file[k].Resolved? {
          used := used + {file[k].obj};
        }
        k := k + 1;
      }
      assert file[..k] == file;
      assert files[..f + 1][..f] == files[..f];
      f := f + 1;
    }
    assert files[..f] == files;
  }

  /** `doPackage`: builds the used set, then walks the top scope applying
      the three exclusions and the visibility rule in the source's order. */
  method DoPackage(pkg: Package) returns (unused: seq<Symbol>)
    ensures unused == Unused(pkg)
  {
    var used := CollectUses(pkg.files);
    unused := [];
    var i := 0;
    while i < |pkg.scope|
      invariant 0 <= i <= |pkg.scope|
      invariant unused == Survivors(pkg, used, pkg.scope[..i])
    {
      var obj := pkg.scope[i];
      i := i + 1;
      assert pkg.scope[..i][..i - 1] == pkg.scope[..i - 1];
      if pkg.name == MainName && obj.name == MainName {
        continue;
      }
      var filename := Base(obj.file);
      if filename == CgoFile {
        continue;
      }
      if obj.isSignature && HasPrefix(obj.name, TestPrefix) && HasSuffix(filename, TestFileSuffix) {
        continue;
      }
      if obj !in used && (pkg.name == MainName || !IsExported(obj.name)) {
        unused := unused + [obj];
      }
    }
    assert pkg.scope[..i] == pkg.scope;
  }

  // ---------------------------------------------------------------------
  // The used set

  lemma {:induction false} UsesInIff(file: File, o: Symbol)
    ensures o in UsesIn(file) <==> exists k | 0 <= k < |file| :: file[k] == Resolved(o)
    decreases |file|
  {
    if file != [] {
      var init := file[..|file| - 1];
      UsesInIff(init, o);
      if exists k | 0 <= k < |init| :: init[k] == Resolved(o) {
        var k :| 0 <= k < |init| && init[k] == Resolved(o);
        assert file[k] == Resolved(o);
      }
    }
  }

  /** The used set holds exactly the objects some identifier of some file
      resolves to, wherever that identifier stands, the object's own body
      included. */
  lemma {:induction false} UsedSetIff(files: seq<File>, o: Symbol)
    ensures o in UsedSet(files) <==> UsedSomewhere(files, o)
    decreases |files|
  {
    if files != [] {
      var init := files[..|files| - 1];
      var last := files[|files| - 1];
      UsedSetIff(init, o);
      UsesInIff(last, o);
      if UsedSomewhere(init, o) {
        var f, k :| 0 <= f < |init| && 0 <= k < |init[f]| && init[f][k] == Resolved(o);
        assert files[f][k] == Resolved(o);
      }
      if exists k | 0 <= k < |last| :: last[k] == Resolved(o) {
        var k :| 0 <= k < |last| && last[k] == Resolved(o);
        assert files[|files| - 1][k] == Resolved(o);
      }
      if UsedSomewhere(files, o) {
        var f, k :| 0 <= f < |files| && 0 <= k < |files[f]| && files[f][k] == Resolved(o);
        if f < |files| - 1 {
          assert init[f][k] == Resolved(o);
        }
      }
    }
  }

  // ---------------------------------------------------------------------
  // What the filter keeps

  lemma {:induction false} SurvivorsIff(pkg: Package, used: set<Symbol>, syms: seq<Symbol>, s: Symbol)
    ensures s in Survivors(pkg, used, syms) <==> s in syms && IsDead(pkg, used, s)
    decreases |syms|
  {
    if syms != [] {
      var init := syms[..|syms| - 1];
      SurvivorsIff(pkg, used, init, s);
      assert syms == init + [syms[|syms| - 1]];
    }
  }

  /** A top-scope object is reported exactly when it is unused, escapes
      all three exclusions and may be reported given its visibility. */
  lemma UnusedIff(pkg: Package, s: Symbol)
    ensures s in Unused(pkg) <==>
      && s in pkg.scope
      && !UsedSomewhere(pkg.files, s)
      && !IsEntryPoint(pkg, s)
      && !InCgoFile(s)
      && !IsTestFunction(s)
      && MayReport(pkg, s)
  {
    SurvivorsIff(pkg, UsedSet(pkg.files), pkg.scope, s);
    UsedSetIff(pkg.files, s);
  }

  /** An object some identifier of the package resolves to is never
      reported, even when that identifier sits in the object's own body:
      a function only called by itself counts as used. */
  lemma UsedNeverReported(pkg: Package, f: nat, k: nat, s: Symbol)
    requires f < |pkg.files| && k < |pkg.files[f]|
    requires pkg.files[f][k] == Resolved(s)
    ensures s !in Unused(pkg)
  {
    UnusedIff(pkg, s);
  }

  /** A command's `main` is never reported; in a package of any other name
      an unused `main` outside cgo's file is. */
  lemma MainExemptOnlyInCommands(pkg: Package, s: Symbol)
    requires s.name == MainName
    ensures pkg.name == MainName ==> s !in Unused(pkg)
    ensures pkg.name != MainName && s in pkg.scope && !UsedSomewhere(pkg.files, s) && !InCgoFile(s)
      ==> s in Unused(pkg)
  {
    UnusedIff(pkg, s);
    assert !HasPrefix(s.name, TestPrefix);
  }

  /** Nothing declared in cgo's pseudo-file is reported. */
  lemma CgoNeverReported(pkg: Package, s: Symbol)
    requires Base(s.file) == CgoFile
    ensures s !in Unused(pkg)
  {
    UnusedIff(pkg, s);
  }

  /** Functions the test runner calls by name are never reported. */
  lemma TestFunctionsNeverReported(pkg: Package, s: Symbol)
    requires s.isSignature
    requires HasPrefix(s.name, TestPrefix)
    requires HasSuffix(Base(s.file), TestFileSuffix)
    ensures s !in Unused(pkg)
  {
    UnusedIff(pkg, s);
  }

  /** A `Test...` name is exported, so outside a command such an object
      is already kept out by visibility: the test-function exclusion only
      changes the result in a package named `main`. */
  lemma TestNamesHiddenOutsideCommands(pkg: Package, s: Symbol)
    requires pkg.name != MainName
    requires HasPrefix(s.name, TestPrefix)
    ensures s !in Unused(pkg)
  {
    assert s.name[0] == TestPrefix[0];
    UnusedIff(pkg, s);
  }

  /** Outside a command an exported name is never reported; inside one an
      unused exported name that no exclusion covers is. */
  lemma ExportedReportedOnlyInCommands(pkg: Package, s: Symbol)
    requires IsExported(s.name)
    ensures pkg.name != MainName ==> s !in Unused(pkg)
    ensures (pkg.name == MainName && s in pkg.scope && !UsedSomewhere(pkg.files, s)
      && !Excluded(pkg, s)) ==> s in Unused(pkg)
  {
    UnusedIff(pkg, s);
  }

  // ---------------------------------------------------------------------
  // Order and uniqueness

  lemma {:induction false} SurvivorsSubsequence(pkg: Package, used: set<Symbol>, syms: seq<Symbol>)
    ensures IsSubsequence(Survivors(pkg, used, syms), syms)
    decreases |syms|
  {
    if syms == [] {
      assert Embeds([], [], syms);
    } else {
      var init := syms[..|syms| - 1];
      var last := syms[|syms| - 1];
      var kept := Survivors(pkg, used, init);
      var keep := IsDead(pkg, used, last);
      assert Survivors(pkg, used, syms) == (if keep then kept + [last] else kept);
      SurvivorsSubsequence(pkg, used, init);
      SubsequenceExtend(kept, init, last, keep);
      assert init + [last] == syms;
    }
  }

  /** The result keeps the top scope's order, and lists each object at
      most once when the scope does. */
  lemma UnusedOrderedAndDistinct(pkg: Package)
    ensures IsSubsequence(Unused(pkg), pkg.scope)
    ensures Distinct(pkg.scope) ==> Distinct(Unused(pkg))
  {
    SurvivorsSubsequence(pkg, UsedSet(pkg.files), pkg.scope);
    if Distinct(pkg.scope) {
      // distinct positions picked from a repeat-free scope hold distinct objects
      var idx: seq<nat> :| Embeds(idx, Unused(pkg), pkg.scope);
    }
  }

  /** Loading more files (the `-test` switch adds a package's `_test.go`
      files) adds uses and may add declarations to the top scope, so new
      objects may be reported; but an object of the smaller scope that is
      reported with the extra files is reported without them too. */
  lemma MoreFilesReportNoMore(pkg: Package, extra: seq<File>, scope: seq<Symbol>, s: Symbol)
    requires s in pkg.scope
    requires s in Unused(Package(pkg.name, pkg.files + extra, scope))
    ensures s in Unused(pkg)
  {
    var bigger := Package(pkg.name, pkg.files + extra, scope);
    UnusedIff(bigger, s);
    forall f, k | 0 <= f < |pkg.files| && 0 <= k < |pkg.files[f]|
      ensures pkg.files[f][k] != Resolved(s)
    {
      assert bigger.files[f][k] == pkg.files[f][k];
    }
    UnusedIff(pkg, s);
  }
}
