/** Strict total orders, sorted sequences and the two standard binary-search cut points. */
module Ordering {

  datatype Option<+T> = None | Some(value: T) {
    predicate IsFailure() {
      None?
    }

    function PropagateFailure<U>(): Option<U>
      requires None?
    {
      None
    }

    function Extract(): T
      requires Some?
    {
      value
    }
  }

  /** `less` is a strict total order: what std::less gives, and what the tree asks of `Compare`. */
  ghost predicate StrictTotal<K(!new)>(less: (K, K) -> bool) {
    && (forall x :: !less(x, x))
    && (forall x, y :: less(x, y) || x == y || less(y, x))
    && (forall x, y, z :: less(x, y) && less(y, z) ==> less(x, z))
  }

  ghost predicate Ascending<K>(less: (K, K) -> bool, s: seq<K>) {
    forall i, j :: 0 <= i < j < |s| ==> less(s[i], s[j])
  }

  ghost predicate NonDescending<K>(less: (K, K) -> bool, s: seq<K>) {
    forall i, j :: 0 <= i < j < |s| ==> !less(s[j], s[i])
  }

  /** The first position whose key is not below `k` (std::lower_bound). */
  function LowerBound<K>(less: (K, K) -> bool, s: seq<K>, k: K): (i: nat)
    ensures i <= |s|
    ensures forall j :: 0 <= j < i ==> less(s[j], k)
    ensures i < |s| ==> !less(s[i], k)
  {
    if s == [] || !less(s[0], k) then 0 else
      var i := LowerBound(less, s[1..], k);
      assert forall j :: 1 <= j < i + 1 ==> s[j] == s[1..][j - 1];
      i + 1
  }

  /** The first position whose key is above `k` (std::upper_bound). */
  function UpperBound<K>(less: (K, K) -> bool, s: seq<K>, k: K): (i: nat)
    ensures i <= |s|
    ensures forall j :: 0 <= j < i ==> !less(k, s[j])
    ensures i < |s| ==> less(k, s[i])
  {
    if s == [] || less(k, s[0]) then 0 else
      var i := UpperBound(less, s[1..], k);
      assert forall j :: 1 <= j < i + 1 ==> s[j] == s[1..][j - 1];
      i + 1
  }
}
