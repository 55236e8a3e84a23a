/** The `std::vector` idiom the registry and the connections use to delete:
    `v.erase(std::remove(v.begin(), v.end(), x), v.end())` removes every
    element equal to `x` and keeps the others in their order. */
module Vectors {

  /** Index of the first element equal to `x`, or |s| when there is none:
      where a linear search that returns at the first match stops. */
  function FirstIndex<T(==)>(s: seq<T>, x: T): (i: nat)
    ensures i <= |s|
    ensures i < |s| ==> s[i] == x
    ensures forall j :: 0 <= j < i ==> s[j] != x
    ensures i == |s| <==> x !in s
  {
    if s == [] then 0
    else if s[0] == x then 0
    else 1 + FirstIndex(s[1..], x)
  }

  /** What erase-remove leaves of `s`. */
  function Erase<T(==)>(s: seq<T>, x: T): (r: seq<T>)
    ensures x !in r
    ensures |r| <= |s|
    ensures forall i :: 0 <= i < |r| ==> r[i] in s
    ensures forall i :: 0 <= i < |s| && s[i] != x ==> s[i] in r
    ensures x !in s ==> r == s
  {
    if s == [] then []
    else if s[0] == x then Erase(s[1..], x)
    else [s[0]] + Erase(s[1..], x)
  }

  /** Erasing distributes over concatenation, so the relative order of the
      elements that stay is the order they had. */
  lemma {:induction false} EraseAppend<T>(a: seq<T>, b: seq<T>, x: T)
    ensures Erase(a + b, x) == Erase(a, x) + Erase(b, x)
  {
    if a == [] {
      assert a + b == b;
    } else {
      assert (a + b)[0] == a[0];
      assert (a + b)[1..] == a[1..] + b;
      EraseAppend(a[1..], b, x);
    }
  }

  /** Only occurrences of `x` go: every other value keeps its count. */
  lemma {:induction false} EraseCounts<T>(s: seq<T>, x: T)
    ensures multiset(Erase(s, x)) == multiset(s)[x := 0]
  {
    if s != [] {
      EraseCounts(s[1..], x);
      assert s == [s[0]] + s[1..];
      assert multiset(s) == multiset{s[0]} + multiset(s[1..]);
      if s[0] != x {
        assert Erase(s, x) == [s[0]] + Erase(s[1..], x);
        assert multiset(Erase(s, x)) == multiset{s[0]} + multiset(Erase(s[1..], x));
      }
    }
  }

  /** In a sequence without repetitions, erasing the element at index i
      removes exactly that position. */
  lemma EraseDistinctAt<T>(s: seq<T>, i: nat)
    requires i < |s|
    requires forall j, k :: 0 <= j < k < |s| ==> s[j] != s[k]
    ensures Erase(s, s[i]) == s[..i] + s[i + 1..]
  {
    var x := s[i];
    var before, after := s[..i], s[i + 1..];
    forall j | 0 <= j < |before| ensures before[j] != x {
      assert before[j] == s[j];
    }
    forall j | 0 <= j < |after| ensures after[j] != x {
      assert after[j] == s[i + 1 + j];
    }
    Around(s, i);
    EraseAppend(before, [x] + after, x);
    EraseAppend([x], after, x);
    assert Erase([x], x) == [];
  }

  /** A sequence is what comes before index i, the element there and what
      comes after. */
  lemma Around<T>(s: seq<T>, i: nat)
    requires i < |s|
    ensures s == s[..i] + ([s[i]] + s[i + 1..])
  {
  }
}
