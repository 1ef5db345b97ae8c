/** Sorted listings of sets of naturals (fixed-width hexadecimal identifiers, read as numbers) and lexicographic order. */
module Ordering {
  import opened Digraph

  ghost predicate Ascending(s: seq<nat>) {
    forall i, j :: 0 <= i < j < |s| ==> s[i] < s[j]
  }

  predicate IsLeast(m: nat, s: set<nat>) {
    m in s && forall y :: y in s ==> m <= y
  }

  lemma {:induction false} LeastExists(s: set<nat>) returns (m: nat)
    requires s != {}
    ensures IsLeast(m, s)
  {
    m :| m in s;
    if s != {m} {
      var first := m;
      var least := LeastExists(s - {first});
      m := if least < first then least else first;
      assert forall y :: y in s ==> y in s - {first} || y == first;
    }
  }

  function Sorted(s: set<nat>): (r: seq<nat>)
    ensures Ascending(r) && |r| == |s|
    ensures forall x :: x in r <==> x in s
  {
    if s == {} then []
    else
      assert exists m :: IsLeast(m, s) by { var least := LeastExists(s); }
      var m :| IsLeast(m, s);
      var rest := Sorted(s - {m});
      assert forall x :: x in [m] + rest <==> x == m || x in rest;
      [m] + rest
  }

  /** A strictly ascending listing is determined by its elements. */
  lemma {:induction false} AscendingUnique(a: seq<nat>, b: seq<nat>)
    requires Ascending(a) && Ascending(b)
    requires forall x :: x in a <==> x in b
    ensures a == b
  {
    assert a != [] ==> a[0] in b;
    assert b != [] ==> b[0] in a;
    if a != [] {
      assert a[0] == b[0];
      forall x ensures x in a[1..] <==> x in b[1..] {
        assert x in a[1..] <==> x in a && x != a[0];
        assert x in b[1..] <==> x in b && x != b[0];
      }
      AscendingUnique(a[1..], b[1..]);
    }
  }

  // ------------------------------------------------------ lexicographic order

  /** Lexicographic order, elements compared by rank. */
  predicate Precedes<T(==)>(rank: T -> int, a: seq<T>, b: seq<T>) {
    if b == [] then false
    else if a == [] then true
    else rank(a[0]) < rank(b[0]) || (a[0] == b[0] && Precedes(rank, a[1..], b[1..]))
  }

  ghost predicate RanksDiffer<T(!new)>(rank: T -> int) {
    forall x, y :: rank(x) == rank(y) ==> x == y
  }

  lemma {:induction false} PrecedesIsTotal<T(!new)>(rank: T -> int, a: seq<T>, b: seq<T>)
    requires RanksDiffer(rank)
    ensures a == b || Precedes(rank, a, b) || Precedes(rank, b, a)
    ensures !(Precedes(rank, a, b) && Precedes(rank, b, a)) && !Precedes(rank, a, a)
    decreases |a|
  {
    if a != [] { PrecedesIsTotal(rank, a[1..], a[1..]); }
    if a != [] && b != [] {
      PrecedesIsTotal(rank, a[1..], b[1..]);
      assert a == [a[0]] + a[1..] && b == [b[0]] + b[1..];
    }
  }

  lemma {:induction false} PrecedesIsTransitive<T>(rank: T -> int, a: seq<T>, b: seq<T>, c: seq<T>)
    requires Precedes(rank, a, b) && Precedes(rank, b, c)
    ensures Precedes(rank, a, c)
  {
    if a != [] && a[0] == b[0] == c[0] { PrecedesIsTransitive(rank, a[1..], b[1..], c[1..]); }
  }

  /** The two agree up to some position, where one ends or has the smaller rank. */
  ghost predicate DiffersAt<T>(rank: T -> int, a: seq<T>, b: seq<T>, k: nat) {
    k <= |a| && k < |b| && a[..k] == b[..k] && (k == |a| || rank(a[k]) < rank(b[k]))
  }

  lemma {:induction false} PrecedesExactly<T>(rank: T -> int, a: seq<T>, b: seq<T>)
    ensures Precedes(rank, a, b) <==> exists k: nat :: DiffersAt(rank, a, b, k)
  {
    if b == [] || a == [] || rank(a[0]) < rank(b[0]) {
      assert b != [] ==> DiffersAt(rank, a, b, 0);
    } else {
      PrecedesExactly(rank, a[1..], b[1..]);
      if k: nat :| DiffersAt(rank, a, b, k) {
        assert a[..k][0] == b[..k][0] && a[..k][1..] == a[1..][..k - 1] && b[..k][1..] == b[1..][..k - 1];
        assert DiffersAt(rank, a[1..], b[1..], k - 1);
      }
      if k: nat :| DiffersAt(rank, a[1..], b[1..], k) && a[0] == b[0] {
        assert a[..k + 1] == [a[0]] + a[1..][..k] && b[..k + 1] == [b[0]] + b[1..][..k];
        assert DiffersAt(rank, a, b, k + 1);
      }
    }
  }

  function CharRank(c: char): int {
    c as int
  }

  /** Code-point order on strings. */
  predicate Before(a: string, b: string) {
    Precedes(CharRank, a, b)
  }

  /** The strings agree up to some position, where the first ends or has the smaller character. */
  lemma BeforeExactly(a: string, b: string)
    ensures Before(a, b) <==> exists k :: 0 <= k <= |a| && k < |b| && a[..k] == b[..k] && (k == |a| || a[k] < b[k])
  {
    PrecedesExactly(CharRank, a, b);
    if k :| 0 <= k <= |a| && k < |b| && a[..k] == b[..k] && (k == |a| || a[k] < b[k]) { assert DiffersAt(CharRank, a, b, k); }
  }

  lemma BeforeIsTotal(a: string, b: string)
    ensures a == b || Before(a, b) || Before(b, a)
    ensures !(Before(a, b) && Before(b, a)) && !Before(a, a)
  {
    PrecedesIsTotal(CharRank, a, b);
  }

  lemma BeforeIsTransitive(a: string, b: string, c: string)
    ensures Before(a, b) && Before(b, c) ==> Before(a, c)
  {
    if Before(a, b) && Before(b, c) { PrecedesIsTransitive(CharRank, a, b, c); }
  }
}
