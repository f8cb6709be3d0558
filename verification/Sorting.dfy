/** A stable sort, and the reason its result does not depend on the order it was given. */
module Sorting {
  import opened Text

  // ----- Ordinal order on strings -----

  predicate Lte(a: string, b: string) {
    a == "" || (b != "" && (a[0] < b[0] || (a[0] == b[0] && Lte(a[1..], b[1..]))))
  }

  predicate Lt(a: string, b: string) { Lte(a, b) && a != b }

  /** Ordinal order: a prefix comes first, and otherwise the first symbol that differs decides. */
  lemma {:induction false} LteExactly(a: string, b: string)
    ensures Lte(a, b) <==> a <= b || exists k :: 0 <= k < |a| && k < |b| && a[..k] == b[..k] && a[k] < b[k]
  {
    if a != "" && b != "" && a[0] == b[0] {
      LteExactly(a[1..], b[1..]);
      if k :| 0 <= k < |a| && k < |b| && a[..k] == b[..k] && a[k] < b[k] {
        assert a[1..][k - 1] == a[k] && b[1..][k - 1] == b[k];
        assert a[1..][..k - 1] == a[..k][1..] && b[1..][..k - 1] == b[..k][1..];
      }
      if k :| 0 <= k < |a| - 1 && k < |b| - 1 && a[1..][..k] == b[1..][..k] && a[1..][k] < b[1..][k] {
        assert a[k + 1] < b[k + 1];
        assert a[..k + 1] == [a[0]] + a[1..][..k] && b[..k + 1] == [b[0]] + b[1..][..k];
      }
      assert a <= b <==> a[1..] <= b[1..] by { assert a == [a[0]] + a[1..] && b == [b[0]] + b[1..]; }
    } else if a != "" && b != "" {
      assert a[..0] == b[..0];
      assert forall k | 0 < k < |a| && k < |b| :: a[..k][0] != b[..k][0];
    }
  }

  lemma LteTotal(a: string, b: string)
    ensures Lte(a, b) || Lte(b, a)
  {
  }

  lemma {:induction false} LteAntisymmetric(a: string, b: string)
    requires Lte(a, b) && Lte(b, a)
    ensures a == b
  {
    if a != "" && b != "" {
      LteAntisymmetric(a[1..], b[1..]);
      assert a == [a[0]] + a[1..] && b == [b[0]] + b[1..];
    }
  }

  lemma {:induction false} LteTransitive(a: string, b: string, c: string)
    requires Lte(a, b) && Lte(b, c)
    ensures Lte(a, c)
  {
    if a != "" && a[0] == b[0] == c[0] {
      LteTransitive(a[1..], b[1..], c[1..]);
    }
  }

  // ----- Sorting by any comparison -----

  ghost predicate Preorder<T(!new)>(lte: (T, T) -> bool) {
    && (forall x, y :: lte(x, y) || lte(y, x))
    && (forall x, y, z :: lte(x, y) && lte(y, z) ==> lte(x, z))
  }

  ghost predicate TotalOrder<T(!new)>(lte: (T, T) -> bool) {
    && Preorder(lte)
    && (forall x, y :: lte(x, y) && lte(y, x) ==> x == y)
  }

  ghost predicate SortedBy<T>(s: seq<T>, lte: (T, T) -> bool) {
    forall i, j | 0 <= i < j < |s| :: lte(s[i], s[j])
  }

  function Insert<T>(x: T, s: seq<T>, lte: (T, T) -> bool): seq<T> {
    if s == [] || lte(x, s[0]) then [x] + s else [s[0]] + Insert(x, s[1..], lte)
  }

  /** LINQ's OrderBy: ascending, and equal keys keep the order they came in. */
  function Sort<T>(s: seq<T>, lte: (T, T) -> bool): seq<T> {
    if s == [] then [] else Insert(s[0], Sort(s[1..], lte), lte)
  }

  lemma {:induction false} InsertKeeps<T>(x: T, s: seq<T>, lte: (T, T) -> bool)
    ensures multiset(Insert(x, s, lte)) == multiset(s) + multiset{x}
  {
    if !(s == [] || lte(x, s[0])) {
      InsertKeeps(x, s[1..], lte);
      assert s == [s[0]] + s[1..];
    }
  }

  lemma {:induction false} SortPermutes<T>(s: seq<T>, lte: (T, T) -> bool)
    ensures multiset(Sort(s, lte)) == multiset(s)
    ensures |Sort(s, lte)| == |s|
  {
    if s != [] {
      SortPermutes(s[1..], lte);
      InsertKeeps(s[0], Sort(s[1..], lte), lte);
      assert s == [s[0]] + s[1..];
    }
    assert |multiset(Sort(s, lte))| == |multiset(s)|;
  }

  lemma {:induction false} InsertSorted<T(!new)>(x: T, s: seq<T>, lte: (T, T) -> bool)
    requires Preorder(lte) && SortedBy(s, lte)
    ensures SortedBy(Insert(x, s, lte), lte)
  {
    if s == [] || lte(x, s[0]) {
    } else {
      InsertSorted(x, s[1..], lte);
      InsertKeeps(x, s[1..], lte);
      var rest := Insert(x, s[1..], lte);
      forall j | 0 <= j < |rest|
        ensures lte(s[0], rest[j])
      {
        assert rest[j] in multiset(rest);
        assert rest[j] == x || rest[j] in s[1..];
      }
    }
  }

  lemma {:induction false} SortSorts<T(!new)>(s: seq<T>, lte: (T, T) -> bool)
    requires Preorder(lte)
    ensures SortedBy(Sort(s, lte), lte)
  {
    if s != [] {
      SortSorts(s[1..], lte);
      InsertSorted(s[0], Sort(s[1..], lte), lte);
    }
  }

  lemma SameLeast<T(!new)>(a: seq<T>, b: seq<T>, lte: (T, T) -> bool)
    requires TotalOrder(lte) && a != [] && b != []
    requires SortedBy(a, lte) && SortedBy(b, lte) && multiset(a) == multiset(b)
    ensures a[0] == b[0]
  {
    assert a[0] in multiset(b) && b[0] in multiset(a);
    assert lte(a[0], a[0]) && lte(b[0], b[0]);
    assert lte(a[0], b[0]) && lte(b[0], a[0]);
  }

  lemma {:induction false} SortedUnique<T(!new)>(a: seq<T>, b: seq<T>, lte: (T, T) -> bool)
    requires TotalOrder(lte)
    requires SortedBy(a, lte) && SortedBy(b, lte) && multiset(a) == multiset(b)
    ensures a == b
  {
    assert |a| == |multiset(a)| == |multiset(b)| == |b|;
    if a != [] {
      SameLeast(a, b, lte);
      PulledAlike(a, b, 0);
      assert b[..0] + b[1..] == b[1..];
      assert SortedBy(a[1..], lte) && SortedBy(b[1..], lte);
      hide TotalOrder, SortedBy;
      SortedUnique(a[1..], b[1..], lte);
      assert a == [a[0]] + a[1..] && b == [b[0]] + b[1..];
    }
  }

  /** Sorting erases the order of its input. */
  lemma SortCanonical<T(!new)>(a: seq<T>, b: seq<T>, lte: (T, T) -> bool)
    requires TotalOrder(lte) && multiset(a) == multiset(b)
    ensures Sort(a, lte) == Sort(b, lte)
  {
    SortPermutes(a, lte);
    SortPermutes(b, lte);
    SortSorts(a, lte);
    SortSorts(b, lte);
    SortedUnique(Sort(a, lte), Sort(b, lte), lte);
  }

  // ----- What a rearrangement keeps -----

  lemma MembersOf<T>(a: seq<T>, b: seq<T>)
    requires multiset(a) == multiset(b)
    ensures forall x | x in a :: x in b
    ensures forall x | x in b :: x in a
  {
    forall x | x in a ensures x in b { assert x in multiset(a); }
    forall x | x in b ensures x in a { assert x in multiset(b); }
  }

  lemma {:induction false} CountedOnce<T>(a: seq<T>, x: T)
    requires forall i, j | 0 <= i < j < |a| :: a[i] != a[j]
    ensures multiset(a)[x] <= 1
  {
    if a != [] {
      CountedOnce(a[1..], x);
      assert a == [a[0]] + a[1..];
      assert a[0] !in a[1..];
    }
  }

  lemma CountedTwice<T>(b: seq<T>, i: nat, j: nat)
    requires i < j < |b| && b[i] == b[j]
    ensures multiset(b)[b[i]] >= 2
  {
    assert b == b[..j] + b[j..];
    assert b[..j][i] == b[i] && b[j..][0] == b[j];
    assert b[i] in b[..j] && b[i] in b[j..];
  }

  lemma DistinctSurvives<T>(a: seq<T>, b: seq<T>, i: nat, j: nat)
    requires multiset(a) == multiset(b) && i < j < |b|
    requires forall x, y | 0 <= x < y < |a| :: a[x] != a[y]
    ensures b[i] != b[j]
  {
    CountedOnce(a, b[i]);
    if b[i] == b[j] {
      CountedTwice(b, i, j);
    }
  }

  // ----- Strictly ascending names -----

  ghost predicate Ascending(names: seq<string>) {
    forall i, j | 0 <= i < j < |names| :: Lt(names[i], names[j])
  }

  /** A set of names has one ascending listing. */
  lemma {:induction false} AscendingUnique(a: seq<string>, b: seq<string>)
    requires Ascending(a) && Ascending(b)
    requires forall x :: x in a <==> x in b
    ensures a == b
  {
    assert (a != [] ==> a[0] in b) && (b != [] ==> b[0] in a);
    if a != [] {
      if a[0] != b[0] {
        assert Lt(b[0], a[0]) && Lt(a[0], b[0]);
        LteAntisymmetric(a[0], b[0]);
      }
      forall x
        ensures x in a[1..] <==> x in b[1..]
      {
        assert x in a[1..] <==> x in a && x != a[0];
        assert x in b[1..] <==> x in b && x != b[0];
      }
      AscendingUnique(a[1..], b[1..]);
    }
  }
}
