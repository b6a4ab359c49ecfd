/** The objects the tool reports and the order it reports them in: the
    `objects` sort adapter, whose `Less` compares source positions. */
module Objects {

  /** A top-level `types.Object` as the filter sees it. `pos` is the
      object's `token.Pos`, an offset into the whole file set, so ordering by
      it orders by file (in loading order) and then by offset within a
      file. `file` is the file name `Fset.Position(pos)` yields, and
      `isSignature` holds when the object's type is a `*types.Signature`,
      which is true of functions and of variables of literal function
      type alike. */
  datatype Symbol = Symbol(name: string, pos: int, file: string, isSignature: bool)

  /** `objects.Less`: `a` comes strictly before `b` in the source. */
  predicate Less(a: Symbol, b: Symbol) {
    a.pos < b.pos
  }

  /** No later element is `Less` than an earlier one. */
  predicate SortedByPos(s: seq<Symbol>) {
    forall i, j | 0 <= i < j < |s| :: !Less(s[j], s[i])
  }

  /** Places `x` into a sorted sequence, keeping it sorted. */
  function Insert(x: Symbol, s: seq<Symbol>): (r: seq<Symbol>)
    requires SortedByPos(s)
    ensures SortedByPos(r)
    ensures multiset(r) == multiset(s) + multiset{x}
    ensures |r| == |s| + 1 && (r[0] == x || (s != [] && r[0] == s[0]))
  {
    if s == [] then
      [x]
    else if !Less(s[0], x) then
      [x] + s
    else
      assert s == [s[0]] + s[1..];
      [s[0]] + Insert(x, s[1..])
  }

  /** `sort.Sort(objects(s))`: the same objects, ordered by position. Go's
      sort is not stable, so nothing is promised about the relative order
      of objects at the same position. */
  function SortByPos(s: seq<Symbol>): (r: seq<Symbol>)
    ensures SortedByPos(r)
    ensures multiset(r) == multiset(s)
  {
    if s == [] then
      []
    else
      assert s == [s[0]] + s[1..];
      Insert(s[0], SortByPos(s[1..]))
  }
}
