/** `process` and the exit decision of `main`: every loaded package is run
    through `doPackage`, the results are concatenated and sorted by
    position, and a non-empty report ends the run with a distinct status. */
module Report {
  import opened Objects
  import opened Deadcode

  /** `deadCodeFoundExit`: the status of a run that found dead code. */
  const DeadCodeFoundExit: int := 2
  /** The status `fatalf` exits with when the packages do not load. */
  const FatalExit: int := 1

  /** The outcome of `Config.Load`: the imported packages, in the order
      the map `prog.Imported` happens to be iterated, or a load error. */
  datatype Load = Loaded(pkgs: seq<Package>) | LoadError(message: string)

  /** The per-package results, concatenated in package order. */
  function AllUnused(pkgs: seq<Package>): (all: seq<Symbol>)
  {
    if pkgs == [] then []
    else AllUnused(pkgs[..|pkgs| - 1]) + Unused(pkgs[|pkgs| - 1])
  }

  /** Some package's result contains `s`. */
  ghost predicate ReportedBySome(pkgs: seq<Package>, s: Symbol) {
    exists i | 0 <= i < |pkgs| :: s in Unused(pkgs[i])
  }

  /** Some package has a dead object. */
  ghost predicate AnyDead(pkgs: seq<Package>) {
    exists i | 0 <= i < |pkgs| :: Unused(pkgs[i]) != []
  }

  /** An object is among the concatenated results exactly when one of the
      packages reports it. */
  lemma {:induction false} AllUnusedIff(pkgs: seq<Package>, s: Symbol)
    ensures s in AllUnused(pkgs) <==> ReportedBySome(pkgs, s)
    decreases |pkgs|
  {
    if pkgs != [] {
      var init := pkgs[..|pkgs| - 1];
      AllUnusedIff(init, s);
      if ReportedBySome(init, s) {
        var i :| 0 <= i < |init| && s in Unused(init[i]);
        assert pkgs[i] == init[i];
      }
      if ReportedBySome(pkgs, s) {
        var i :| 0 <= i < |pkgs| && s in Unused(pkgs[i]);
        if i < |pkgs| - 1 {
          assert init[i] == pkgs[i];
        }
      }
    }
  }

  /** The concatenation is empty exactly when no package reports anything. */
  lemma {:induction false} AllUnusedEmptyIff(pkgs: seq<Package>)
    ensures AllUnused(pkgs) == [] <==> !AnyDead(pkgs)
    decreases |pkgs|
  {
    if pkgs != [] {
      var init := pkgs[..|pkgs| - 1];
      AllUnusedEmptyIff(init);
      if AnyDead(init) {
        var i :| 0 <= i < |init| && Unused(init[i]) != [];
        assert pkgs[i] == init[i];
      }
      if AnyDead(pkgs) {
        var i :| 0 <= i < |pkgs| && Unused(pkgs[i]) != [];
        if i < |pkgs| - 1 {
          assert init[i] == pkgs[i];
        }
      }
    }
  }

  /** `process` after a successful load: the report holds the objects of
      every package's result, as often as they occur there, ordered by
      position. */
  method Process(pkgs: seq<Package>) returns (report: seq<Symbol>)
    ensures SortedByPos(report)
    ensures multiset(report) == multiset(AllUnused(pkgs))
  {
    var allUnused: seq<Symbol> := [];
    var i := 0;
    while i < |pkgs|
      invariant 0 <= i <= |pkgs|
      invariant allUnused == AllUnused(pkgs[..i])
    {
      var unused := DoPackage(pkgs[i]);
      assert pkgs[..i + 1][..i] == pkgs[..i];
      allUnused := allUnused + unused;
      i := i + 1;
    }
    assert pkgs[..i] == pkgs;
    report := SortByPos(allUnused);
  }

  /** Any permutation of the concatenation, the sorted report included,
      holds an object exactly when some package reports it. */
  lemma ReportIff(pkgs: seq<Package>, report: seq<Symbol>, s: Symbol)
    requires multiset(report) == multiset(AllUnused(pkgs))
    ensures s in report <==> ReportedBySome(pkgs, s)
  {
    assert s in report <==> s in multiset(report);
    AllUnusedIff(pkgs, s);
  }

  /** The exit status for a report: dead code found, or success. */
  function ExitStatus(report: seq<Symbol>): (status: int)
    ensures status == DeadCodeFoundExit <==> report != []
    ensures status == 0 <==> report == []
  {
    if |report| != 0 then DeadCodeFoundExit else 0
  }

  /** A whole run: a load error stops it with the fatal status and no
      report; otherwise it ends with the dead-code status exactly when some
      package has a dead object, and with success otherwise. */
  method Run(load: Load) returns (report: seq<Symbol>, status: int)
    ensures load.LoadError? ==> report == [] && status == FatalExit
    ensures load.Loaded? ==> (status == DeadCodeFoundExit <==> AnyDead(load.pkgs))
    ensures load.Loaded? ==> (status == 0 <==> !AnyDead(load.pkgs))
    ensures load.Loaded? ==> (status == DeadCodeFoundExit <==> report != [])
    ensures load.Loaded? ==> SortedByPos(report) && multiset(report) == multiset(AllUnused(load.pkgs))
  {
    if load.LoadError? {
      return [], FatalExit;
    }
    report := Process(load.pkgs);
    AllUnusedEmptyIff(load.pkgs);
    assert report == [] <==> multiset(report) == multiset{};
    status := ExitStatus(report);
  }
}
