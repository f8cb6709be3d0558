/** The walk that decides what a backup holds: pruned, depth first, sorted within each directory. */
module BackupWalk {
  import opened Text
  import opened Sorting
  import opened ArchivePaths

  datatype Node = Folder | File(data: seq<byte>)

  /** What is on a disk, or under one directory of it when the paths are relative. */
  type Files = map<Path, Node>

  /** Every entry has its parent, and a parent is a folder. */
  ghost predicate Grounded(m: Files) {
    forall p | p in m && p != [] :: p[..|p| - 1] in m && m[p[..|p| - 1]] == Folder
  }

  /** The tree under one directory, which is itself the entry []. */
  ghost predicate IsTree(m: Files) {
    && [] in m && m[[]] == Folder
    && Grounded(m)
    && forall p | p in m :: Canonical(p)
  }

  // ----- One directory's entries, in ordinal order -----

  function NamesIn(m: Files, d: Path): (r: set<string>)
    ensures forall n :: n in r <==> d + [n] in m
  {
    assert forall p | p in m && |p| == |d| + 1 && d <= p :: p == d + [p[|d|]];
    set p | p in m && |p| == |d| + 1 && d <= p :: p[|d|]
  }

  lemma {:induction false} LeastExists(names: set<string>)
    requires names != {}
    ensures exists x | x in names :: forall y | y in names :: Lte(x, y)
  {
    var x :| x in names;
    LteTotal(x, x);
    if names != {x} {
      LeastExists(names - {x});
      var z :| z in names - {x} && forall y | y in names - {x} :: Lte(z, y);
      LteTotal(x, z);
      if Lte(x, z) {
        forall y | y in names ensures Lte(x, y) {
          if y != x { LteTransitive(x, z, y); }
        }
      } else {
        assert forall y | y in names :: Lte(z, y);
      }
    }
  }

  lemma LeastUnique(names: set<string>)
    ensures forall x, y | && x in names && y in names
                          && (forall z | z in names :: Lte(x, z)) && (forall z | z in names :: Lte(y, z)) :: x == y
  {
    forall x, y | && x in names && y in names
                  && (forall z | z in names :: Lte(x, z)) && (forall z | z in names :: Lte(y, z))
      ensures x == y
    {
      LteAntisymmetric(x, y);
    }
  }

  function Ordered(names: set<string>): (r: seq<string>)
    ensures Ascending(r)
    ensures forall x :: x in r <==> x in names
  {
    if names == {} then []
    else
      LeastExists(names);
      LeastUnique(names);
      var x :| x in names && forall y | y in names :: Lte(x, y);
      [x] + Ordered(names - {x})
  }

  /** Whatever order the file system enumerates in, sorting it gives the same listing. */
  lemma EnumerationOrderIsErased(names: seq<string>)
    requires forall i, j | 0 <= i < j < |names| :: names[i] != names[j]
    ensures Sort(names, Lte) == Ordered(set n | n in names)
  {
    forall x, y ensures Lte(x, y) || Lte(y, x) { LteTotal(x, y); }
    forall x, y, z | Lte(x, y) && Lte(y, z) ensures Lte(x, z) { LteTransitive(x, y, z); }
    SortSorts(names, Lte);
    SortPermutes(names, Lte);
    var sorted := Sort(names, Lte);
    MembersOf(names, sorted);
    forall i, j | 0 <= i < j < |sorted|
      ensures Lt(sorted[i], sorted[j])
    {
      DistinctSurvives(names, sorted, i, j);
    }
    AscendingUnique(sorted, Ordered(set n | n in names));
  }

  // ----- The walk -----

  ghost function Below(m: Files, d: Path): set<Path> {
    set p | p in m && d < p
  }

  lemma BelowShrinks(m: Files, d: Path, n: string)
    requires d + [n] in m
    ensures |Below(m, d + [n])| < |Below(m, d)|
  {
    assert d + [n] in Below(m, d) && d + [n] !in Below(m, d + [n]);
    assert Below(m, d + [n]) < Below(m, d);
    SubsetSmaller(Below(m, d + [n]), Below(m, d));
  }

  lemma SubsetSmaller<T>(a: set<T>, b: set<T>)
    requires a < b
    ensures |a| < |b|
  {
    assert b == a + (b - a);
    assert |b| == |a| + |b - a|;
  }

  function Walk(m: Files, d: Path, skip: Path -> bool): seq<Path>
    decreases |Below(m, d)|, 1, 0
  {
    WalkEach(m, d, Ordered(NamesIn(m, d)), skip)
  }

  function WalkEach(m: Files, d: Path, names: seq<string>, skip: Path -> bool): seq<Path>
    requires forall n | n in names :: d + [n] in m
    decreases |Below(m, d)|, 0, |names|
  {
    if names == [] then []
    else
      var p := d + [names[0]];
      BelowShrinks(m, d, names[0]);
      (if skip(p) then []
       else [p] + if m[p].Folder? then Walk(m, p, skip) else [])
      + WalkEach(m, d, names[1..], skip)
  }

  function Pruned(p: Path): bool { Excluded(Spelled(p)) }

  function Never(p: Path): bool { false }

  function Kept(p: Path): bool { !Pruned(p) }

  /** No entry of a walk is at or below a later one: nothing is listed twice, and folders come first. */
  ghost predicate ParentsFirst(w: seq<Path>) {
    forall i, j | 0 <= i < j < |w| :: !(w[j] <= w[i])
  }

  /** Name by name, a folder before what it holds: the order of a depth-first walk with sorted siblings. */
  predicate Before(a: Path, b: Path) {
    b != [] && (a == [] || Lt(a[0], b[0]) || (a[0] == b[0] && Before(a[1..], b[1..])))
  }

  ghost predicate InOrder(w: seq<Path>) {
    forall i, j | 0 <= i < j < |w| :: Before(w[i], w[j])
  }

  lemma {:induction false} PrefixIsBefore(a: Path, b: Path)
    requires a < b
    ensures Before(a, b)
  {
    if a != [] { PrefixIsBefore(a[1..], b[1..]); }
  }

  lemma {:induction false} BeforeIsNotBelow(a: Path, b: Path)
    requires Before(a, b)
    ensures !(b <= a)
  {
    if a != [] && a[0] == b[0] && !Lt(a[0], b[0]) {
      BeforeIsNotBelow(a[1..], b[1..]);
    }
  }

  lemma {:induction false} ForksBefore(d: Path, a: Path, b: Path)
    requires d < a && d < b && Lt(a[|d|], b[|d|])
    ensures Before(a, b)
  {
    if d != [] { ForksBefore(d[1..], a[1..], b[1..]); }
  }

  lemma {:induction false} BeforeIsStrict(a: Path, b: Path)
    ensures !(Before(a, b) && Before(b, a)) && !Before(a, a)
  {
    if a != [] {
      BeforeIsStrict(a[1..], if b == [] then [] else b[1..]);
      if b != [] && Lt(a[0], b[0]) && Lt(b[0], a[0]) { LteAntisymmetric(a[0], b[0]); }
    }
  }

  lemma InOrderAppend(a: seq<Path>, b: seq<Path>)
    requires InOrder(a) && InOrder(b)
    requires forall x, y | x in a && y in b :: Before(x, y)
    ensures InOrder(a + b)
  {
    forall i, j | 0 <= i < j < |a + b|
      ensures Before((a + b)[i], (a + b)[j])
    {
      assert i < |a| ==> a[i] in a;
      assert j >= |a| ==> b[j - |a|] in b;
    }
  }

  lemma TailInOrder(a: seq<Path>)
    requires InOrder(a) && a != []
    ensures InOrder(a[1..]) && forall x :: x in a[1..] <==> x in a && x != a[0]
  {
    BeforeIsStrict(a[0], a[0]);
    assert a == [a[0]] + a[1..];
  }

  /** There is one way to list a set of paths in order. */
  lemma {:induction false} OrderIsUnique(a: seq<Path>, b: seq<Path>)
    requires InOrder(a) && InOrder(b) && forall x :: x in a <==> x in b
    ensures a == b
  {
    assert (a != [] ==> a[0] in b) && (b != [] ==> b[0] in a);
    if a != [] {
      BeforeIsStrict(a[0], b[0]);
      var i :| 0 <= i < |b| && b[i] == a[0];
      var j :| 0 <= j < |a| && a[j] == b[0];
      assert a[0] == b[0];
      TailInOrder(a);
      TailInOrder(b);
      OrderIsUnique(a[1..], b[1..]);
      assert a == [a[0]] + a[1..] && b == [b[0]] + b[1..];
    }
  }

  lemma {:induction false} WalkStaysBelow(m: Files, d: Path, skip: Path -> bool)
    ensures forall p | p in Walk(m, d, skip) :: p in m && d < p
    decreases |Below(m, d)|, 1, 0
  {
    WalkEachStaysBelow(m, d, Ordered(NamesIn(m, d)), skip);
  }

  lemma {:induction false} WalkEachStaysBelow(m: Files, d: Path, names: seq<string>, skip: Path -> bool)
    requires forall n | n in names :: d + [n] in m
    ensures forall p | p in WalkEach(m, d, names, skip) :: p in m && d < p && p[|d|] in names
    decreases |Below(m, d)|, 0, |names|
  {
    if names != [] {
      var p := d + [names[0]];
      BelowShrinks(m, d, names[0]);
      WalkStaysBelow(m, p, skip);
      WalkEachStaysBelow(m, d, names[1..], skip);
      forall q | p < q ensures d < q && q[|d|] == names[0] {
        assert q[..|p|] == p;
      }
    }
  }

  lemma {:induction false} WalkIsInOrder(m: Files, d: Path, skip: Path -> bool)
    ensures InOrder(Walk(m, d, skip))
    decreases |Below(m, d)|, 1, 0
  {
    WalkEachIsInOrder(m, d, Ordered(NamesIn(m, d)), skip);
  }

  lemma {:induction false} WalkEachIsInOrder(m: Files, d: Path, names: seq<string>, skip: Path -> bool)
    requires forall n | n in names :: d + [n] in m
    requires Ascending(names)
    ensures InOrder(WalkEach(m, d, names, skip))
    decreases |Below(m, d)|, 0, |names|
  {
    if names != [] {
      var p := d + [names[0]];
      BelowShrinks(m, d, names[0]);
      WalkIsInOrder(m, p, skip);
      WalkStaysBelow(m, p, skip);
      WalkEachIsInOrder(m, d, names[1..], skip);
      WalkEachStaysBelow(m, d, names[1..], skip);
      var inner := if m[p].Folder? then Walk(m, p, skip) else [];
      forall x | x in inner ensures Before(p, x) { PrefixIsBefore(p, x); }
      InOrderAppend([p], inner);
      var head := if skip(p) then [] else [p] + inner;
      forall x, y | x in head && y in WalkEach(m, d, names[1..], skip)
        ensures Before(x, y)
      {
        assert p <= x && x[|d|] == names[0];
        assert y[|d|] in names[1..];
        ForksBefore(d, x, y);
      }
      InOrderAppend(head, WalkEach(m, d, names[1..], skip));
    }
  }

  /** No path is visited twice, and a folder is visited before what it holds. */
  lemma WalkParentsFirst(m: Files, d: Path, skip: Path -> bool)
    ensures ParentsFirst(Walk(m, d, skip))
  {
    WalkIsInOrder(m, d, skip);
    var w := Walk(m, d, skip);
    hide Walk;
    forall i, j | 0 <= i < j < |w| ensures !(w[j] <= w[i]) {
      BeforeIsNotBelow(w[i], w[j]);
    }
  }

  lemma {:induction false} AncestorIn(m: Files, p: Path, k: nat)
    requires Grounded(m) && p in m && k <= |p|
    ensures p[..k] in m && (k < |p| ==> m[p[..k]] == Folder)
    decreases |p| - k
  {
    if k < |p| {
      AncestorIn(m, p, k + 1);
      assert p[..k + 1][..k] == p[..k];
    } else {
      assert p[..k] == p;
    }
  }

  lemma AncestorOf(m: Files, p: Path, x: Path)
    requires Grounded(m) && p in m && x <= p
    ensures x in m && (x != p ==> m[x] == Folder)
  {
    AncestorIn(m, p, |x|);
    assert p[..|x|] == x;
  }

  /** Walking without pruning reaches everything. */
  lemma {:induction false} WalkReaches(m: Files, d: Path, p: Path)
    requires Grounded(m) && p in m && d < p
    ensures p in Walk(m, d, Never)
    decreases |Below(m, d)|, 1, 0
  {
    AncestorIn(m, p, |d| + 1);
    assert p[..|d| + 1] == d + [p[|d|]];
    assert p[|d|] in NamesIn(m, d);
    WalkEachReaches(m, d, Ordered(NamesIn(m, d)), p);
  }

  lemma {:induction false} WalkEachReaches(m: Files, d: Path, names: seq<string>, p: Path)
    requires Grounded(m) && p in m && d < p
    requires forall n | n in names :: d + [n] in m
    requires p[|d|] in names
    ensures p in WalkEach(m, d, names, Never)
    decreases |Below(m, d)|, 0, |names|
  {
    if p[|d|] == names[0] {
      var q := d + [names[0]];
      BelowShrinks(m, d, names[0]);
      assert p[..|q|] == q;
      if p != q {
        AncestorIn(m, p, |q|);
        WalkReaches(m, q, p);
      }
    } else {
      WalkEachReaches(m, d, names[1..], p);
    }
  }

  lemma PrunedIsInherited(p: Path, q: Path)
    requires p != [] && p <= q && Pruned(p)
    ensures Pruned(q)
  {
    hide Excluded;
    if p != q {
      assert q == p + q[|p|..];
      SpelledAppend(p, q[|p|..]);
      ExcludedIsInherited(Spelled(p), Spelled(q[|p|..]));
    } else {
      assert p == q;
    }
  }

  /** Pruning loses nothing: never entering an excluded folder is the full walk with its exclusions filtered out. */
  lemma {:induction false} PruningIsFiltering(m: Files, d: Path)
    ensures Walk(m, d, Pruned) == Filter(Kept, Walk(m, d, Never))
    decreases |Below(m, d)|, 1, 0
  {
    PruningEachIsFiltering(m, d, Ordered(NamesIn(m, d)));
  }

  lemma {:induction false} PruningEachIsFiltering(m: Files, d: Path, names: seq<string>)
    requires forall n | n in names :: d + [n] in m
    ensures WalkEach(m, d, names, Pruned) == Filter(Kept, WalkEach(m, d, names, Never))
    decreases |Below(m, d)|, 0, |names|
  {
    if names != [] {
      var p := d + [names[0]];
      BelowShrinks(m, d, names[0]);
      PruningIsFiltering(m, p);
      PruningEachIsFiltering(m, d, names[1..]);
      var inner := if m[p].Folder? then Walk(m, p, Never) else [];
      FilterAppend(Kept, [p] + inner, WalkEach(m, d, names[1..], Never));
      FilterAppend(Kept, [p], inner);
      if Pruned(p) {
        WalkStaysBelow(m, p, Never);
        forall q | q in inner ensures !Kept(q) {
          PrunedIsInherited(p, q);
        }
        FilterNone(inner);
      }
    }
  }

  lemma {:induction false} FilterNone(w: seq<Path>)
    requires forall q | q in w :: !Kept(q)
    ensures Filter(Kept, w) == []
  {
    if w != [] {
      FilterNone(w[1..]);
    }
  }

  /** What a backup of a tree visits, by membership. */
  lemma WalkExactly(m: Files, p: Path)
    requires IsTree(m)
    ensures p in Walk(m, [], Pruned) <==> p in m && p != [] && Kept(p)
  {
    PruningIsFiltering(m, []);
    WalkStaysBelow(m, [], Never);
    if p in m && p != [] {
      WalkReaches(m, [], p);
    }
  }

  /** A backup visits exactly one list: the tree's paths that are not excluded, in order. */
  lemma WalkIsCanonical(m: Files, w: seq<Path>)
    requires IsTree(m)
    ensures w == Walk(m, [], Pruned) <==> InOrder(w) && forall p :: p in w <==> p in m && p != [] && Kept(p)
  {
    WalkIsInOrder(m, [], Pruned);
    forall p ensures p in Walk(m, [], Pruned) <==> p in m && p != [] && Kept(p) { WalkExactly(m, p); }
    hide Walk, Kept, InOrder;
    if InOrder(w) && forall p :: p in w <==> p in m && p != [] && Kept(p) {
      OrderIsUnique(w, Walk(m, [], Pruned));
    }
  }

  /** By the names alone: a path goes in unless some name of it ends in .tmp or it is the backup folder or below. */
  lemma VisitedExactly(m: Files, p: Path)
    requires IsTree(m) && p in m && p != [] && Separatorless(p)
    ensures p in Walk(m, [], Pruned) <==> (forall s | s in p :: !EndsInTmp(s)) && !(["org", "backup"] <= p)
  {
    hide Excluded, EndsInTmp, Separatorless;
    WalkExactly(m, p);
    ExcludedByNameExactly(p);
  }

  lemma BackupTreeIsPruned()
    ensures Pruned(["org", "backup"])
  {
    var tree := ["org", "backup"];
    assert Spelled(tree) == "org/backup";
    SpelledIsNormal(tree);
  }

  /** The folder that holds the archives and their sealed key is never visited, nor anything in it. */
  lemma BackupTreeNeverTravels(m: Files, p: Path)
    requires IsTree(m) && ["org", "backup"] <= p
    ensures p !in Walk(m, [], Pruned)
  {
    hide Excluded;
    WalkExactly(m, p);
    BackupTreeIsPruned();
    PrunedIsInherited(["org", "backup"], p);
  }
}
