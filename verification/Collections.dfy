/** Lists without repetition and the sizes of sets. */
module Collections {

  ghost predicate Distinct<T>(l: seq<T>) {
    forall i, j | 0 <= i < j < |l| :: l[i] != l[j]
  }

  ghost function Elems<T>(l: seq<T>): set<T> {
    set x | x in l
  }

  /** The lists hold indices of lists, as adjacency lists do. */
  predicate InRange(lists: seq<seq<nat>>) {
    forall i, k | 0 <= i < |lists| && 0 <= k < |lists[i]| :: lists[i][k] < |lists|
  }

  lemma {:induction false} SubsetSize<T>(s: set<T>, t: set<T>)
    requires s <= t
    ensures |s| <= |t|
  {
    if s != {} {
      var x :| x in s;
      SubsetSize(s - {x}, t - {x});
    }
  }
}
