/**
 Sorting as the C++ and C libraries promise it: `std::sort` and `qsort` return some
 permutation of their input that is ordered by the comparator. Nothing else is known
 about ties, so `Sort` is a method (opaque to its callers) and everything proved about a
 sorted result is proved for every sorted permutation.
 */
module Seqs {

  ghost predicate TotalPreorder<T(!new)>(leq: (T, T) -> bool) {
    && (forall x, y :: leq(x, y) || leq(y, x))
    && (forall x, y, z :: leq(x, y) && leq(y, z) ==> leq(x, z))
  }

  ghost predicate Antisymmetric<T(!new)>(leq: (T, T) -> bool) {
    forall x, y :: leq(x, y) && leq(y, x) ==> x == y
  }

  ghost predicate Sorted<T>(s: seq<T>, leq: (T, T) -> bool) {
    forall i, j :: 0 <= i < j < |s| ==> leq(s[i], s[j])
  }

  ghost predicate SortedPermutation<T>(r: seq<T>, s: seq<T>, leq: (T, T) -> bool) {
    Sorted(r, leq) && multiset(r) == multiset(s)
  }

  predicate NoDup<T(==)>(s: seq<T>) {
    forall i, j :: 0 <= i < j < |s| ==> s[i] != s[j]
  }

  /** `a` is `b` with some elements left out, the others in their order; `at` says where they were. */
  ghost predicate Subsequence<T>(a: seq<T>, b: seq<T>) {
    exists at: seq<nat> :: Picks(a, b, at)
  }

  ghost predicate Picks<T>(a: seq<T>, b: seq<T>, at: seq<nat>) {
    && |at| == |a|
    && (forall i :: 0 <= i < |a| ==> at[i] < |b| && a[i] == b[at[i]])
    && (forall i, j :: 0 <= i < j < |a| ==> at[i] < at[j])
  }

  lemma SubsequenceEmpty<T>(b: seq<T>)
    ensures Subsequence([], b)
  {
    assert Picks([], b, []);
  }

  lemma SubsequenceMore<T>(a: seq<T>, b: seq<T>, x: T)
    requires Subsequence(a, b)
    ensures Subsequence(a, b + [x]) && Subsequence(a + [x], b + [x])
  {
    var at: seq<nat> :| Picks(a, b, at);
    assert Picks(a, b + [x], at);
    assert Picks(a + [x], b + [x], at + [|b|]);
  }

  function OneOn(at: seq<nat>): (r: seq<nat>)
    ensures |r| == |at| && forall i :: 0 <= i < |at| ==> r[i] == at[i] + 1
  {
    if at == [] then [] else [at[0] + 1] + OneOn(at[1..])
  }

  lemma SubsequenceFront<T>(x: T, a: seq<T>, b: seq<T>)
    requires Subsequence(a, b)
    ensures Subsequence(a, [x] + b) && Subsequence([x] + a, [x] + b)
  {
    var at: seq<nat> :| Picks(a, b, at);
    PicksShifted(x, a, b, at);
    PicksFront(x, a, b, at);
  }

  lemma PicksShifted<T>(x: T, a: seq<T>, b: seq<T>, at: seq<nat>)
    requires Picks(a, b, at)
    ensures Picks(a, [x] + b, OneOn(at))
  {
    forall i | 0 <= i < |a| ensures OneOn(at)[i] < |[x] + b| && a[i] == ([x] + b)[OneOn(at)[i]] {
      assert at[i] < |b| && a[i] == b[at[i]];
    }
  }

  lemma PicksFront<T>(x: T, a: seq<T>, b: seq<T>, at: seq<nat>)
    requires Picks(a, b, at)
    ensures Picks([x] + a, [x] + b, [0] + OneOn(at))
  {
    PicksShifted(x, a, b, at);
    var up, all := OneOn(at), [0] + OneOn(at);
    forall i | 0 <= i < |[x] + a| ensures all[i] < |[x] + b| && ([x] + a)[i] == ([x] + b)[all[i]] {
      if i > 0 {
        assert all[i] == up[i - 1] && ([x] + a)[i] == a[i - 1];
      }
    }
    forall i, j | 0 <= i < j < |[x] + a| ensures all[i] < all[j] {
      assert all[j] == up[j - 1] == at[j - 1] + 1;
      assert i > 0 ==> all[i] == up[i - 1] == at[i - 1] + 1;
    }
  }

  function Insert<T>(s: seq<T>, x: T, leq: (T, T) -> bool): (r: seq<T>)
    ensures multiset(r) == multiset(s) + multiset{x}
  {
    if s == [] then [x]
    else if leq(x, s[0]) then
      assert [s[0]] + s[1..] == s;
      [x] + s
    else
      assert [s[0]] + s[1..] == s;
      [s[0]] + Insert(s[1..], x, leq)
  }

  lemma {:induction false} InsertSorted<T(!new)>(s: seq<T>, x: T, leq: (T, T) -> bool)
    requires TotalPreorder(leq) && Sorted(s, leq)
    ensures Sorted(Insert(s, x, leq), leq)
  {
    if s != [] && !leq(x, s[0]) {
      InsertSorted(s[1..], x, leq);
      var t := Insert(s[1..], x, leq);
      forall j | 0 <= j < |t| ensures leq(s[0], t[j]) {
        assert t[j] in multiset(t);
        assert t[j] in multiset(s[1..]) || t[j] == x;
        if t[j] != x {
          var k :| 0 <= k < |s[1..]| && s[1..][k] == t[j];
          assert leq(s[0], s[k + 1]);
        }
      }
    }
  }

  method Sort<T(!new)>(s: seq<T>, leq: (T, T) -> bool) returns (r: seq<T>)
    requires TotalPreorder(leq)
    ensures SortedPermutation(r, s, leq)
  {
    r := [];
    for i := 0 to |s|
      invariant SortedPermutation(r, s[..i], leq)
    {
      InsertSorted(r, s[i], leq);
      assert s[..i + 1] == s[..i] + [s[i]];
      r := Insert(r, s[i], leq);
    }
    assert s[..|s|] == s;
  }

  lemma MultisetMember<T>(a: seq<T>, b: seq<T>, x: T)
    requires multiset(a) == multiset(b)
    ensures x in a <==> x in b
  {
    assert x in a <==> x in multiset(a);
    assert x in b <==> x in multiset(b);
  }

  lemma PermutationLength<T>(a: seq<T>, b: seq<T>)
    requires multiset(a) == multiset(b)
    ensures |a| == |b|
  {
    assert |multiset(a)| == |a| && |multiset(b)| == |b|;
  }

  lemma HeadMultiset<T>(a: seq<T>)
    requires a != []
    ensures multiset(a) == multiset{a[0]} + multiset(a[1..])
  {
    assert a == [a[0]] + a[1..];
  }

  lemma SortedTail<T(!new)>(a: seq<T>, leq: (T, T) -> bool)
    requires Sorted(a, leq) && a != []
    ensures Sorted(a[1..], leq)
  {
    forall i, j | 0 <= i < j < |a[1..]| ensures leq(a[1..][i], a[1..][j]) {
      assert leq(a[i + 1], a[j + 1]);
    }
  }

  lemma TailMultiset<T>(a: seq<T>, b: seq<T>)
    requires a != [] && b != [] && a[0] == b[0] && multiset(a) == multiset(b)
    ensures multiset(a[1..]) == multiset(b[1..])
  {
    HeadMultiset(a);
    HeadMultiset(b);
    assert multiset(a[1..]) == multiset(a) - multiset{a[0]};
    assert multiset(b[1..]) == multiset(b) - multiset{b[0]};
  }

  /** Where the first element of a sequence is in a permutation of it, and what is left of the two. */
  lemma HeadPosition<T>(a: seq<T>, b: seq<T>) returns (k: nat)
    requires a != [] && multiset(a) == multiset(b)
    ensures k < |b| && b[k] == a[0]
    ensures multiset(a[1..]) == multiset(b[..k] + b[k + 1..])
  {
    MultisetMember(a, b, a[0]);
    k :| 0 <= k < |b| && b[k] == a[0];
    HeadMultiset(a);
    assert b == b[..k] + [b[k]] + b[k + 1..];
    assert multiset(b[..k] + b[k + 1..]) == multiset(b) - multiset{b[k]};
  }

  /** Under an antisymmetric order, what a sort returns depends only on the multiset it was given. */
  lemma {:induction false} SortedUnique<T(!new)>(a: seq<T>, b: seq<T>, leq: (T, T) -> bool)
    requires Antisymmetric(leq)
    requires Sorted(a, leq) && Sorted(b, leq)
    requires multiset(a) == multiset(b)
    ensures a == b
  {
    assert |multiset(a)| == |a| && |multiset(b)| == |b|;
    if a != [] {
      SmallestUnique(a, b, leq);
      TailMultiset(a, b);
      SortedTail(a, leq);
      SortedTail(b, leq);
      SortedUnique(a[1..], b[1..], leq);
      assert a == [a[0]] + a[1..] && b == [b[0]] + b[1..];
    }
  }

  lemma SmallestUnique<T(!new)>(a: seq<T>, b: seq<T>, leq: (T, T) -> bool)
    requires Antisymmetric(leq)
    requires Sorted(a, leq) && Sorted(b, leq)
    requires multiset(a) == multiset(b) && a != [] && b != []
    ensures a[0] == b[0]
  {
    MultisetMember(a, b, a[0]);
    MultisetMember(a, b, b[0]);
    var i :| 0 <= i < |a| && a[i] == b[0];
    var j :| 0 <= j < |b| && b[j] == a[0];
  }

  lemma {:induction false} NoDupMultiset<T>(s: seq<T>, x: T)
    requires NoDup(s)
    ensures multiset(s)[x] == if x in s then 1 else 0
  {
    if s != [] {
      assert s == [s[0]] + s[1..];
      NoDupMultiset(s[1..], x);
    }
  }

  lemma {:induction false} MultisetNoDup<T>(s: seq<T>)
    requires forall x :: multiset(s)[x] <= 1
    ensures NoDup(s)
  {
    if s != [] {
      assert s == [s[0]] + s[1..];
      forall x ensures multiset(s[1..])[x] <= 1 {
        assert multiset(s)[x] <= 1;
      }
      MultisetNoDup(s[1..]);
      assert multiset(s)[s[0]] == 1 + multiset(s[1..])[s[0]];
      forall j | 0 < j < |s| ensures s[0] != s[j] {
        assert s[j] == s[1..][j - 1];
        assert s[j] in multiset(s[1..]);
      }
    }
  }

  lemma PermutationKeeps<T>(a: seq<T>, b: seq<T>)
    requires multiset(a) == multiset(b)
    ensures forall x :: x in a <==> x in b
    ensures NoDup(a) ==> NoDup(b)
  {
    forall x ensures x in a <==> x in b {
      MultisetMember(a, b, x);
    }
    if NoDup(a) {
      forall x ensures multiset(b)[x] <= 1 {
        NoDupMultiset(a, x);
      }
      MultisetNoDup(b);
    }
  }

  lemma ConcatNoDup<T>(a: seq<T>, b: seq<T>)
    requires NoDup(a) && NoDup(b)
    requires forall x :: x in a ==> x !in b
    ensures NoDup(a + b)
  {
    var c := a + b;
    forall i, j | 0 <= i < j < |c| ensures c[i] != c[j] {
      if i < |a| <= j {
        assert c[i] in a && c[j] in b;
      }
    }
  }

  // Concatenation is associative; the solver is told so where it matters.

  lemma Assoc<T>(a: seq<T>, b: seq<T>, c: seq<T>)
    ensures (a + b) + c == a + (b + c)
  {
  }

  lemma Regroup<T>(a: seq<T>, b: seq<T>, c: seq<T>, d: seq<T>)
    ensures a + (b + c + d) == a + b + c + d
  {
  }

  function Map<T, U>(f: T -> U, s: seq<T>): (r: seq<U>)
    ensures |r| == |s| && forall i :: 0 <= i < |s| ==> r[i] == f(s[i])
  {
    seq(|s|, i requires 0 <= i < |s| => f(s[i]))
  }

  lemma MapSplit<T, U>(f: T -> U, s: seq<T>, k: nat)
    requires k < |s|
    ensures multiset(Map(f, s)) == multiset(Map(f, s[..k] + s[k + 1..])) + multiset{f(s[k])}
  {
    var rest := s[..k] + s[k + 1..];
    assert Map(f, s) == Map(f, s[..k]) + [f(s[k])] + Map(f, s[k + 1..]);
    assert Map(f, rest) == Map(f, s[..k]) + Map(f, s[k + 1..]);
  }

  lemma {:induction false} MapMultiset<T, U>(f: T -> U, a: seq<T>, b: seq<T>)
    requires multiset(a) == multiset(b)
    ensures multiset(Map(f, a)) == multiset(Map(f, b))
  {
    if a == [] {
      assert multiset(b) == multiset{};
      assert |multiset(b)| == |b|;
    } else {
      var k := HeadPosition(a, b);
      MapMultiset(f, a[1..], b[..k] + b[k + 1..]);
      MapHead(f, a);
      MapSplit(f, b, k);
    }
  }

  lemma MapHead<T, U>(f: T -> U, s: seq<T>)
    requires s != []
    ensures multiset(Map(f, s)) == multiset(Map(f, s[1..])) + multiset{f(s[0])}
  {
    assert Map(f, s) == [f(s[0])] + Map(f, s[1..]);
  }

  lemma SliceLeft<T>(a: seq<T>, b: seq<T>, i: nat, j: nat)
    requires i <= j <= |a|
    ensures (a + b)[i..j] == a[i..j]
  {
  }

  lemma SliceRight<T>(a: seq<T>, b: seq<T>)
    ensures (a + b)[..|a|] == a && (a + b)[|a|..] == b && (a + b)[|a|..|a| + |b|] == b
  {
  }

  lemma DropDrop<T>(s: seq<T>, i: nat, j: nat)
    requires i + j <= |s|
    ensures s[i..][j..] == s[i + j..]
  {
  }

  lemma Snoc<T>(s: seq<T>, i: nat)
    requires i < |s|
    ensures s[..i] + [s[i]] == s[..i + 1]
  {
  }

  lemma MapsEqual<K, V>(a: map<K, V>, b: map<K, V>)
    requires forall x :: x in a ==> x in b && a[x] == b[x]
    requires forall x :: x in b ==> x in a
    ensures a == b
  {
  }

  lemma Member<T>(s: set<T>) returns (x: T)
    requires s != {}
    ensures x in s
  {
    x :| x in s;
  }

  lemma {:induction false} SubsetSize<T>(a: set<T>, b: set<T>)
    requires a <= b
    ensures |a| <= |b|
  {
    if a != {} {
      var x :| x in a;
      SubsetSize(a - {x}, b - {x});
    }
  }
}
