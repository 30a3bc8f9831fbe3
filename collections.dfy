/** Sequences used as Java lists, and the list a Java `HashSet` yields when it is copied into an `ArrayList`. */
module Collections {

  datatype Option<T> = None | Some(value: T)

  /** The elements of a list, as a set (what `new HashSet<>(list)` holds). */
  function ElementsOf<T>(xs: seq<T>): set<T>
  {
    set x | x in xs
  }

  /** No element occurs twice in the list. */
  predicate NoDuplicates<T(==)>(xs: seq<T>)
  {
    forall i, j :: 0 <= i < j < |xs| ==> xs[i] != xs[j]
  }

  /** A duplicate-free list has as many elements as the set of its elements. */
  lemma {:induction false} DistinctCard<T>(xs: seq<T>)
    requires NoDuplicates(xs)
    ensures |ElementsOf(xs)| == |xs|
  {
    if xs != [] {
      var rest := xs[1..];
      assert NoDuplicates(rest) by {
        forall i, j | 0 <= i < j < |rest| ensures rest[i] != rest[j] {
          assert rest[i] == xs[i + 1] && rest[j] == xs[j + 1];
        }
      }
      DistinctCard(rest);
      assert xs[0] !in ElementsOf(rest) by {
        forall k | 0 <= k < |rest| ensures rest[k] != xs[0] {
          assert rest[k] == xs[k + 1];
        }
      }
      assert ElementsOf(xs) == {xs[0]} + ElementsOf(rest) by {
        assert xs == [xs[0]] + rest;
      }
    }
  }

  /**
   * `new ArrayList<>(hashSet)`: a list holding every element of the set once, in an
   * order the model leaves unspecified (Java takes it from the hash table's buckets).
   */
  method ListOfSet<T>(s: set<T>) returns (xs: seq<T>)
    ensures ElementsOf(xs) == s
    ensures NoDuplicates(xs)
    ensures |xs| == |s|
  {
    xs := [];
    var rest := s;
    while rest != {}
      invariant ElementsOf(xs) + rest == s
      invariant ElementsOf(xs) !! rest
      invariant NoDuplicates(xs)
      invariant |xs| + |rest| == |s|
      decreases |rest|
    {
      var x :| x in rest;
      xs := xs + [x];
      rest := rest - {x};
    }
  }
}
