/** A stable sort by key, standing for Python's `sorted` and `list.sort`, and what is known of sorted permutations. */
module Sorting {

  ghost predicate TotalOrder<K(!new)>(leq: (K, K) -> bool) {
    && (forall x, y :: leq(x, y) || leq(y, x))
    && (forall x, y, z :: leq(x, y) && leq(y, z) ==> leq(x, z))
  }

  ghost predicate Antisymmetric<K(!new)>(leq: (K, K) -> bool) {
    forall x, y :: leq(x, y) && leq(y, x) ==> x == y
  }

  ghost predicate Sorted<T, K>(key: T -> K, leq: (K, K) -> bool, s: seq<T>) {
    forall i, j | 0 <= i < j < |s| :: leq(key(s[i]), key(s[j]))
  }

  function Identity<K>(x: K): K {
    x
  }

  /** Puts `x` behind every element that is not above it. */
  function Insert<T, K>(key: T -> K, leq: (K, K) -> bool, x: T, s: seq<T>): seq<T> {
    if s == [] then [x]
    else if leq(key(s[|s| - 1]), key(x)) then s + [x]
    else Insert(key, leq, x, s[..|s| - 1]) + [s[|s| - 1]]
  }

  function Sort<T, K>(key: T -> K, leq: (K, K) -> bool, s: seq<T>): seq<T> {
    if s == [] then [] else Insert(key, leq, s[|s| - 1], Sort(key, leq, s[..|s| - 1]))
  }

  function Map<A, B>(f: A -> B, s: seq<A>): (r: seq<B>)
    ensures |r| == |s| && forall i | 0 <= i < |s| :: r[i] == f(s[i])
  {
    seq(|s|, i requires 0 <= i < |s| => f(s[i]))
  }

  lemma MapSnoc<A, B>(f: A -> B, s: seq<A>, x: A)
    ensures Map(f, s + [x]) == Map(f, s) + [f(x)]
  {
  }

  lemma MapAppend<A, B>(f: A -> B, a: seq<A>, b: seq<A>)
    ensures Map(f, a + b) == Map(f, a) + Map(f, b)
  {
  }

  lemma PermutedLength<T>(a: seq<T>, b: seq<T>)
    requires multiset(a) == multiset(b)
    ensures |a| == |b|
  {
    assert |multiset(a)| == |a| && |multiset(b)| == |b|;
  }

  lemma PermutedMember<T>(a: seq<T>, b: seq<T>, x: T)
    requires multiset(a) == multiset(b)
    ensures x in a <==> x in b
  {
    assert x in a <==> x in multiset(a);
    assert x in b <==> x in multiset(b);
  }

  lemma RemoveAt<T>(s: seq<T>, j: nat)
    requires j < |s|
    ensures multiset(s[..j] + s[j + 1..]) == multiset(s) - multiset{s[j]}
  {
    assert s == s[..j] + [s[j]] + s[j + 1..];
  }

  predicate Distinct<T(==)>(s: seq<T>) {
    forall i, j | 0 <= i < j < |s| :: s[i] != s[j]
  }

  lemma OccursTwice<T>(s: seq<T>, i: nat, j: nat)
    requires i < j < |s| && s[i] == s[j]
    ensures multiset(s)[s[i]] >= 2
  {
    var rest := s[i + 1..];
    assert rest[j - i - 1] == s[j];
    assert s == s[..i] + ([s[i]] + rest);
    assert multiset(s) == multiset(s[..i]) + (multiset{s[i]} + multiset(rest));
    assert s[i] in multiset(rest);
  }

  lemma {:induction false} OccursOnce<T>(s: seq<T>, x: T)
    requires Distinct(s)
    ensures multiset(s)[x] <= 1
  {
    if s != [] {
      var front, last := s[..|s| - 1], s[|s| - 1];
      assert s == front + [last];
      OccursOnce(front, x);
      if x == last {
        assert x !in front;
        assert x !in multiset(front);
      }
    }
  }

  /** A permutation of distinct elements has distinct elements. */
  lemma PermutedDistinct<T>(a: seq<T>, b: seq<T>)
    requires multiset(a) == multiset(b) && Distinct(a)
    ensures Distinct(b)
  {
    forall i, j | 0 <= i < j < |b| ensures b[i] != b[j] {
      OccursOnce(a, b[i]);
      if b[i] == b[j] { OccursTwice(b, i, j); }
    }
  }

  /** Two listings of the same set are permutations of each other. */
  lemma SameMembersPermuted<T>(a: seq<T>, b: seq<T>)
    requires Distinct(a) && Distinct(b) && (forall x | x in a :: x in b) && (forall x | x in b :: x in a)
    ensures multiset(a) == multiset(b)
  {
    var m, n := multiset(a), multiset(b);
    assert (forall x | x in m :: m[x] == n[x]) && (forall x | x in n :: m[x] == n[x]) by {
      forall x | x in m || x in n ensures m[x] == n[x] {
        OccursOnce(a, x);
        OccursOnce(b, x);
        assert x in m ==> x in a;
        assert x in n ==> x in b;
      }
    }
  }

  lemma {:induction false} InsertPermutes<T, K>(key: T -> K, leq: (K, K) -> bool, x: T, s: seq<T>)
    ensures multiset(Insert(key, leq, x, s)) == multiset(s) + multiset{x}
  {
    if s != [] {
      var front, last := s[..|s| - 1], s[|s| - 1];
      assert s == front + [last];
      InsertPermutes(key, leq, x, front);
    }
  }

  lemma SortedSnoc<T, K>(key: T -> K, leq: (K, K) -> bool, s: seq<T>, last: T)
    requires Sorted(key, leq, s) && forall i | 0 <= i < |s| :: leq(key(s[i]), key(last))
    ensures Sorted(key, leq, s + [last])
  {
  }

  lemma InsertedBelow<T, K(!new)>(key: T -> K, leq: (K, K) -> bool, x: T, front: seq<T>, last: T, y: T)
    requires (forall i | 0 <= i < |front| :: leq(key(front[i]), key(last))) && leq(key(x), key(last))
    requires y in Insert(key, leq, x, front)
    ensures leq(key(y), key(last))
  {
    InsertPermutes(key, leq, x, front);
    PermutedMember(Insert(key, leq, x, front), front + [x], y);
  }

  lemma {:induction false} InsertSorts<T, K(!new)>(key: T -> K, leq: (K, K) -> bool, x: T, s: seq<T>)
    requires TotalOrder(leq) && Sorted(key, leq, s)
    ensures Sorted(key, leq, Insert(key, leq, x, s))
  {
    if s != [] {
      var front, last := s[..|s| - 1], s[|s| - 1];
      if leq(key(last), key(x)) {
        forall i | 0 <= i < |s| ensures leq(key(s[i]), key(x)) {
          assert i < |s| - 1 ==> leq(key(s[i]), key(last));
        }
        SortedSnoc(key, leq, s, x);
      } else {
        InsertSorts(key, leq, x, front);
        var inserted := Insert(key, leq, x, front);
        forall i | 0 <= i < |inserted| ensures leq(key(inserted[i]), key(last)) {
          InsertedBelow(key, leq, x, front, last, inserted[i]);
        }
        SortedSnoc(key, leq, inserted, last);
      }
    }
  }

  lemma {:induction false} SortSorts<T, K(!new)>(key: T -> K, leq: (K, K) -> bool, s: seq<T>)
    requires TotalOrder(leq)
    ensures multiset(Sort(key, leq, s)) == multiset(s)
    ensures Sorted(key, leq, Sort(key, leq, s))
  {
    if s != [] {
      var front, last := s[..|s| - 1], s[|s| - 1];
      assert s == front + [last];
      SortSorts(key, leq, front);
      InsertPermutes(key, leq, last, Sort(key, leq, front));
      InsertSorts(key, leq, last, Sort(key, leq, front));
    }
  }

  /** The last element of a sorted sequence is above all others. */
  lemma LastIsGreatest<T, K(!new)>(key: T -> K, leq: (K, K) -> bool, s: seq<T>, x: T)
    requires TotalOrder(leq) && Sorted(key, leq, s) && x in s
    ensures leq(key(x), key(s[|s| - 1]))
  {
    var i :| 0 <= i < |s| && s[i] == x;
  }

  lemma LastAgrees<K(!new)>(leq: (K, K) -> bool, a: seq<K>, b: seq<K>)
    requires multiset(a) == multiset(b) && a != [] && b != [] && TotalOrder(leq) && Antisymmetric(leq)
    requires Sorted(Identity, leq, a) && Sorted(Identity, leq, b)
    ensures a[|a| - 1] == b[|b| - 1]
  {
    PermutedMember(a, b, a[|a| - 1]);
    PermutedMember(a, b, b[|b| - 1]);
    LastIsGreatest(Identity, leq, a, b[|b| - 1]);
    LastIsGreatest(Identity, leq, b, a[|a| - 1]);
  }

  lemma FrontPermuted<K>(a: seq<K>, b: seq<K>, n: nat)
    requires multiset(a) == multiset(b) && n + 1 == |a| == |b| && a[n] == b[n]
    ensures multiset(a[..n]) == multiset(b[..n])
  {
    RemoveAt(a, n);
    RemoveAt(b, n);
    assert a[..n] + a[n + 1..] == a[..n] && b[..n] + b[n + 1..] == b[..n];
  }

  /** Elements that the order can tell apart can be sorted in one way only. */
  lemma {:induction false} SortedUnique<K(!new)>(leq: (K, K) -> bool, a: seq<K>, b: seq<K>)
    requires multiset(a) == multiset(b) && TotalOrder(leq) && Antisymmetric(leq)
    requires Sorted(Identity, leq, a) && Sorted(Identity, leq, b)
    ensures a == b
  {
    PermutedLength(a, b);
    if a != [] {
      var n := |a| - 1;
      LastAgrees(leq, a, b);
      FrontPermuted(a, b, n);
      SortedUnique(leq, a[..n], b[..n]);
      assert a == a[..n] + [a[n]] && b == b[..n] + [b[n]];
    }
  }

  /** Mapping respects permutations. */
  lemma {:induction false} PermutedMap<A, B>(f: A -> B, a: seq<A>, b: seq<A>)
    requires multiset(a) == multiset(b)
    ensures multiset(Map(f, a)) == multiset(Map(f, b))
  {
    PermutedLength(a, b);
    if a != [] {
      var n := |a| - 1;
      PermutedMember(a, b, a[n]);
      var j :| 0 <= j < |b| && b[j] == a[n];
      RemoveAt(a, n);
      RemoveAt(b, j);
      assert a[..n] + a[n + 1..] == a[..n];
      PermutedMap(f, a[..n], b[..j] + b[j + 1..]);
      MapWithout(f, b, j);
      MapWithout(f, a, n);
    }
  }

  lemma MapWithout<A, B>(f: A -> B, s: seq<A>, j: nat)
    requires j < |s|
    ensures multiset(Map(f, s)) == multiset(Map(f, s[..j] + s[j + 1..])) + multiset{f(s[j])}
  {
    var image, rest := Map(f, s), s[..j] + s[j + 1..];
    RemoveAt(image, j);
    var shorter := image[..j] + image[j + 1..];
    forall i | 0 <= i < |rest| ensures Map(f, rest)[i] == shorter[i] {
      if i < j { assert rest[i] == s[i]; } else { assert rest[i] == s[i + 1]; }
    }
    assert Map(f, rest) == shorter;
  }

  /** Two sorted permutations have the same keys at the same places. */
  lemma SortedKeysUnique<T, K(!new)>(key: T -> K, leq: (K, K) -> bool, a: seq<T>, b: seq<T>)
    requires TotalOrder(leq) && Antisymmetric(leq) && multiset(a) == multiset(b)
    requires Sorted(key, leq, a) && Sorted(key, leq, b)
    ensures Map(key, a) == Map(key, b)
  {
    PermutedMap(key, a, b);
    SortedUnique(leq, Map(key, a), Map(key, b));
  }

  /** For every element two others, in place. */
  function Both<A, B>(f: A -> B, g: A -> B, s: seq<A>): seq<B> {
    if s == [] then [] else Both(f, g, s[..|s| - 1]) + [f(s[|s| - 1])] + [g(s[|s| - 1])]
  }

  lemma {:induction false} BothMembers<A, B>(f: A -> B, g: A -> B, s: seq<A>, y: B)
    ensures y in Both(f, g, s) <==> exists x | x in s :: y == f(x) || y == g(x)
    ensures |Both(f, g, s)| == 2 * |s|
  {
    if s != [] {
      var front, last := s[..|s| - 1], s[|s| - 1];
      BothMembers(f, g, front, y);
      assert s == front + [last];
      if y == f(last) || y == g(last) {
        assert last in s && y in Both(f, g, s);
      }
    }
  }
}
