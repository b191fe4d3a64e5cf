/**
 * `sort.Slice(s, func(i, j int) bool { return key(s[i]) < key(s[j]) })`:
 * an in-place sort of an array by a string key. Go promises only that the
 * result is sorted and a permutation of the input (the order of elements
 * with equal keys is unspecified), so that is what SortBy promises; the
 * body is an insertion sort.
 */
module Sorting {
  import opened Text

  /** No element has a key strictly smaller than the key of an element before it. */
  ghost predicate SortedBy<T>(s: seq<T>, key: T -> string) {
    forall i, j :: 0 <= i < j < |s| ==> !Less(key(s[j]), key(s[i]))
  }

  method SortBy<T>(a: array<T>, key: T -> string)
    modifies a
    ensures SortedBy(a[..], key)
    ensures multiset(a[..]) == old(multiset(a[..]))
  {
    var i := 0;
    while i < a.Length
      invariant 0 <= i <= a.Length
      invariant forall p, q :: 0 <= p < q < i ==> !Less(key(a[q]), key(a[p]))
      invariant multiset(a[..]) == old(multiset(a[..]))
    {
      var j := i;
      while j > 0 && Less(key(a[j]), key(a[j - 1]))
        invariant 0 <= j <= i
        invariant forall p, q :: 0 <= p < q <= i && p != j && q != j ==> !Less(key(a[q]), key(a[p]))
        invariant forall q :: j < q <= i ==> Less(key(a[j]), key(a[q]))
        invariant multiset(a[..]) == old(multiset(a[..]))
      {
        a[j - 1], a[j] := a[j], a[j - 1];
        j := j - 1;
      }
      forall p, q | 0 <= p < q <= i
        ensures !Less(key(a[q]), key(a[p]))
      {
        if q == j {
          if p < j - 1 {
            NotLessTransitive(key(a[p]), key(a[j - 1]), key(a[j]));
          }
        } else if p == j {
          LessAsymmetric(key(a[j]), key(a[q]));
        }
      }
      i := i + 1;
    }
  }

  /** No value occurs twice. */
  ghost predicate NoDuplicates<T>(s: seq<T>) {
    forall i, j :: 0 <= i < j < |s| ==> s[i] != s[j]
  }

  /** Having no duplicates is a property of the multiset alone. */
  lemma {:induction false} NoDuplicatesMultiset<T>(s: seq<T>)
    ensures NoDuplicates(s) <==> forall x :: multiset(s)[x] <= 1
    decreases |s|
  {
    if s != [] {
      var n := |s| - 1;
      var init := s[..n];
      assert s == init + [s[n]];
      NoDuplicatesMultiset(init);
      if NoDuplicates(s) {
        assert s[n] !in init;
        forall x ensures multiset(s)[x] <= 1 {
          assert multiset(s)[x] == multiset(init)[x] + multiset([s[n]])[x];
        }
      }
      if forall x :: multiset(s)[x] <= 1 {
        forall x ensures multiset(init)[x] <= 1 {
          assert multiset(s)[x] == multiset(init)[x] + multiset([s[n]])[x];
        }
        assert multiset(s)[s[n]] == multiset(init)[s[n]] + 1;
        assert s[n] !in init;
        forall i, j | 0 <= i < j < |s| ensures s[i] != s[j] {
          if j == n {
            assert s[i] in init;
          } else {
            assert init[i] == s[i] && init[j] == s[j];
          }
        }
      }
    }
  }

  lemma NoDuplicatesPermutation<T>(s: seq<T>, t: seq<T>)
    requires multiset(s) == multiset(t) && NoDuplicates(s)
    ensures NoDuplicates(t)
  {
    NoDuplicatesMultiset(s);
    NoDuplicatesMultiset(t);
  }
}
