/** Splitting, joining and trimming of sequences, the way the repository's string calls do it. */
module Text {

  type byte = n: nat | n < 256

  /** Every piece between separators; an empty input is one empty piece, as with .NET's Split. */
  function Split<T(==)>(s: seq<T>, sep: T): (parts: seq<seq<T>>)
    ensures |parts| >= 1
    ensures forall p | p in parts :: sep !in p
  {
    if s == [] then [[]]
    else
      var rest := Split(s[1..], sep);
      if s[0] == sep then [[]] + rest else [[s[0]] + rest[0]] + rest[1..]
  }

  function Join<T>(parts: seq<seq<T>>, sep: T): seq<T> {
    if |parts| == 0 then []
    else if |parts| == 1 then parts[0]
    else parts[0] + [sep] + Join(parts[1..], sep)
  }

  function Map<A, B>(f: A -> B, s: seq<A>): (r: seq<B>)
    ensures |r| == |s|
    ensures forall i | 0 <= i < |s| :: r[i] == f(s[i])
  {
    if s == [] then [] else [f(s[0])] + Map(f, s[1..])
  }

  function Filter<T>(keep: T -> bool, s: seq<T>): (r: seq<T>)
    ensures forall x | x in s :: keep(x) ==> x in r
    ensures forall x | x in r :: x in s && keep(x)
    ensures |r| <= |s|
  {
    if s == [] then []
    else (if keep(s[0]) then [s[0]] else []) + Filter(keep, s[1..])
  }

  function Lower(c: char): char {
    if 'A' <= c <= 'Z' then c - 'A' + 'a' else c
  }

  const CAPITALS := "ABCDEFGHIJKLMNOPQRSTUVWXYZ"

  const SMALLS := "abcdefghijklmnopqrstuvwxyz"

  lemma AlphabetsRun()
    ensures |CAPITALS| == |SMALLS| == 26
    ensures forall i | 0 <= i < 26 :: CAPITALS[i] as int == 'A' as int + i && SMALLS[i] as int == 'a' as int + i
  {
  }

  /** Each capital becomes the small letter at its place, and nothing else changes. */
  lemma LowerExactly(c: char)
    ensures if exists i :: 0 <= i < |CAPITALS| && CAPITALS[i] == c
            then exists i :: 0 <= i < |CAPITALS| && CAPITALS[i] == c && Lower(c) == SMALLS[i]
            else Lower(c) == c
  {
    AlphabetsRun();
    if 'A' <= c <= 'Z' {
      var i := c as int - 'A' as int;
      assert CAPITALS[i] == c;
    }
  }

  function Replaced<T(==)>(s: seq<T>, was: T, now: T): (r: seq<T>)
    ensures |r| == |s|
    ensures forall i | 0 <= i < |s| :: r[i] == if s[i] == was then now else s[i]
  {
    seq(|s|, i requires 0 <= i < |s| => if s[i] == was then now else s[i])
  }

  function TrimStart<T>(s: seq<T>, drop: T -> bool): (r: seq<T>)
    ensures |r| <= |s| && r == s[|s| - |r|..]
    ensures forall i | 0 <= i < |s| - |r| :: drop(s[i])
    ensures r != [] ==> !drop(r[0])
  {
    if s != [] && drop(s[0]) then TrimStart(s[1..], drop) else s
  }

  function TrimEnd<T>(s: seq<T>, drop: T -> bool): (r: seq<T>)
    ensures r <= s
    ensures forall i | |r| <= i < |s| :: drop(s[i])
    ensures r != [] ==> !drop(r[|r| - 1])
  {
    if s != [] && drop(s[|s| - 1]) then TrimEnd(s[..|s| - 1], drop) else s
  }

  // ----- Split and Join undo each other -----

  lemma {:induction false} SplitWhole<T>(p: seq<T>, sep: T)
    requires sep !in p
    ensures Split(p, sep) == [p]
  {
    if p != [] {
      SplitWhole(p[1..], sep);
      assert [p[0]] + p[1..] == p;
    }
  }

  lemma {:induction false} SplitAfter<T>(p: seq<T>, sep: T, t: seq<T>)
    requires sep !in p
    ensures Split(p + [sep] + t, sep) == [p] + Split(t, sep)
  {
    var s := p + [sep] + t;
    if p == [] {
      assert s[1..] == t;
    } else {
      assert s[1..] == p[1..] + [sep] + t;
      SplitAfter(p[1..], sep, t);
      assert [p[0]] + p[1..] == p;
    }
  }

  lemma {:induction false} SplitOfJoin<T>(parts: seq<seq<T>>, sep: T)
    requires parts != []
    requires forall p | p in parts :: sep !in p
    ensures Split(Join(parts, sep), sep) == parts
  {
    if |parts| == 1 {
      SplitWhole(parts[0], sep);
    } else {
      SplitAfter(parts[0], sep, Join(parts[1..], sep));
      SplitOfJoin(parts[1..], sep);
    }
  }

  lemma {:induction false} JoinOfSplit<T>(s: seq<T>, sep: T)
    ensures Join(Split(s, sep), sep) == s
  {
    if s != [] {
      var rest := Split(s[1..], sep);
      JoinOfSplit(s[1..], sep);
      if s[0] == sep {
        assert ([[]] + rest)[1..] == rest;
      } else if |rest| > 1 {
        assert ([[s[0]] + rest[0]] + rest[1..])[1..] == rest[1..];
      }
    }
  }

  /** Where every symbol of a joined text comes from. */
  lemma {:induction false} JoinSymbols<T>(parts: seq<seq<T>>, sep: T, x: T)
    requires x in Join(parts, sep)
    ensures x == sep || exists p | p in parts :: x in p
  {
    if |parts| == 1 {
      assert parts[0] in parts;
    } else if |parts| > 1 {
      assert parts[0] in parts;
      if x != sep && x !in parts[0] {
        JoinSymbols(parts[1..], sep, x);
      }
    }
  }

  lemma {:induction false} FilterAppend<T>(keep: T -> bool, a: seq<T>, b: seq<T>)
    ensures Filter(keep, a + b) == Filter(keep, a) + Filter(keep, b)
  {
    if a == [] {
      assert a + b == b;
    } else {
      assert (a + b)[1..] == a[1..] + b;
      FilterAppend(keep, a[1..], b);
    }
  }

  lemma {:induction false} TrimEndKeeps<T>(s: seq<T>, drop: T -> bool)
    requires s == [] || !drop(s[|s| - 1])
    ensures TrimEnd(s, drop) == s
  {
  }

  lemma {:induction false} MapAppend<A, B>(f: A -> B, a: seq<A>, b: seq<A>)
    ensures Map(f, a + b) == Map(f, a) + Map(f, b)
  {
    if a == [] {
      assert a + b == b;
    } else {
      assert (a + b)[1..] == a[1..] + b;
      MapAppend(f, a[1..], b);
    }
  }

  lemma PullOut<T>(s: seq<T>, i: nat)
    requires i < |s|
    ensures multiset(s) == multiset{s[i]} + multiset(s[..i] + s[i + 1..])
  {
    assert s == s[..i] + ([s[i]] + s[i + 1..]);
  }

  lemma PulledAlike<T>(a: seq<T>, b: seq<T>, i: nat)
    requires multiset(a) == multiset(b) && a != [] && i < |b| && b[i] == a[0]
    ensures multiset(a[1..]) == multiset(b[..i] + b[i + 1..])
  {
    PullOut(a, 0);
    PullOut(b, i);
    assert a[..0] + a[1..] == a[1..];
    var x, y := multiset(a[1..]), multiset(b[..i] + b[i + 1..]);
    assert multiset{a[0]} + x == multiset{a[0]} + y;
    assert x == multiset(a) - multiset{a[0]};
  }

  lemma MapPulled<A, B>(f: A -> B, s: seq<A>, i: nat)
    requires i < |s|
    ensures multiset(Map(f, s)) == multiset{f(s[i])} + multiset(Map(f, s[..i] + s[i + 1..]))
  {
    var fs, rest := Map(f, s), s[..i] + s[i + 1..];
    PullOut(fs, i);
    MappedRest(f, s, i);
    hide Map;
  }

  lemma MappedRest<A, B>(f: A -> B, s: seq<A>, i: nat)
    requires i < |s|
    ensures Map(f, s)[..i] + Map(f, s)[i + 1..] == Map(f, s[..i] + s[i + 1..])
  {
    MapAppend(f, s[..i], s[i + 1..]);
    MapAppend(f, s[..i], s[i..]);
    assert s == s[..i] + s[i..];
    hide Map;
    assert Map(f, s[i..])[1..] == Map(f, s[i + 1..]);
  }

  /** Mapping does not care about order. */
  lemma {:induction false} MapPermutes<A, B>(f: A -> B, a: seq<A>, b: seq<A>)
    requires multiset(a) == multiset(b)
    ensures multiset(Map(f, a)) == multiset(Map(f, b))
  {
    if a == [] {
      assert |b| == |multiset(b)| == 0;
    } else {
      assert a[0] in multiset(b);
      var i :| 0 <= i < |b| && b[i] == a[0];
      hide Map;
      PulledAlike(a, b, i);
      MapPermutes(f, a[1..], b[..i] + b[i + 1..]);
      MapPulled(f, a, 0);
      MapPulled(f, b, i);
      assert a[..0] + a[1..] == a[1..];
    }
  }
}
