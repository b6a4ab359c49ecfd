/** The string conventions the dead-code filter leans on: the prefix and
    suffix tests of Go's `strings` package, the last path element returned
    by `path/filepath.Base` (with `/` as the only separator) and the export
    rule of `go/ast.IsExported`, restricted to ASCII letters. */
module Names {

  const Separator: char := '/'

  /** `strings.HasPrefix`: `s` starts with `prefix`. */
  predicate HasPrefix(s: string, prefix: string) {
    |prefix| <= |s| && s[..|prefix|] == prefix
  }

  /** `strings.HasSuffix`: `s` ends with `suffix`. */
  predicate HasSuffix(s: string, suffix: string) {
    |suffix| <= |s| && s[|s| - |suffix|..] == suffix
  }

  /** `ast.IsExported`: the name begins with an upper-case letter. */
  predicate IsExported(name: string) {
    |name| > 0 && 'A' <= name[0] <= 'Z'
  }

  /** The path with every trailing separator removed. */
  function TrimTrailingSeparators(path: string): (r: string)
    ensures |r| <= |path| && r == path[..|r|]
    ensures r == [] || r[|r| - 1] != Separator
    ensures forall k | |r| <= k < |path| :: path[k] == Separator
    decreases |path|
  {
    if path != [] && path[|path| - 1] == Separator then
      TrimTrailingSeparators(path[..|path| - 1])
    else
      path
  }

  /** Where the last element of `path` begins: just past its last
      separator, or 0 when it has none. */
  function ElementStart(path: string): (i: nat)
    ensures i <= |path|
    ensures 0 < i ==> path[i - 1] == Separator
    ensures forall k | i <= k < |path| :: path[k] != Separator
    decreases |path|
  {
    if path == [] || path[|path| - 1] == Separator then
      |path|
    else
      ElementStart(path[..|path| - 1])
  }

  /** `filepath.Base`: the last element of the path, trailing separators
      ignored; "." for the empty path and "/" for a path of separators. */
  function Base(path: string): (r: string)
    ensures r != []
    ensures r == [Separator] || Separator !in r
    ensures path == [] ==> r == "."
  {
    if path == [] then
      "."
    else
      var trimmed := TrimTrailingSeparators(path);
      var element := trimmed[ElementStart(trimmed)..];
      if element == [] then [Separator] else element
  }

  /** Appending a separator-free piece to a path that is empty or ends in a
      separator moves the start of the last element to the join point. */
  lemma {:induction false} ElementStartOfJoin(dir: string, name: string)
    requires dir == [] || dir[|dir| - 1] == Separator
    requires Separator !in name
    ensures ElementStart(dir + name) == |dir|
    decreases |name|
  {
    if name == [] {
      assert dir + name == dir;
    } else {
      var shorter := name[..|name| - 1];
      assert (dir + name)[..|dir + name| - 1] == dir + shorter;
      ElementStartOfJoin(dir, shorter);
    }
  }

  /** The base of `dir/name` is `name` whenever `name` is a non-empty
      element: the file name `C` is recognised in any directory. */
  lemma BaseOfJoin(dir: string, name: string)
    requires dir == [] || dir[|dir| - 1] == Separator
    requires name != [] && Separator !in name
    ensures Base(dir + name) == name
  {
    var path := dir + name;
    assert path[|path| - 1] == name[|name| - 1];
    assert TrimTrailingSeparators(path) == path;
    ElementStartOfJoin(dir, name);
    assert path[|dir|..] == name;
  }
}
