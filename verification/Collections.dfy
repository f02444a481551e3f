/**
 Small definitions shared by several modules.
 */
module Collections {

  datatype Option<+T> = None | Some(value: T)

  lemma SubsetCardinality<T>(a: set<T>, b: set<T>)
    requires a <= b
    ensures |a| <= |b|
    ensures |a| == |b| ==> a == b
  {
    assert b == a + (b - a);
  }

  lemma RemoveCardinality<T>(s: set<T>, x: T)
    requires x in s
    ensures |s - {x}| == |s| - 1
  {
  }

  /** The numbers from `lo` to `hi - 1`. */
  function Ids(lo: nat, hi: nat): (ids: set<nat>)
    ensures forall id :: id in ids <==> lo <= id < hi
    ensures lo <= hi ==> |ids| == hi - lo
  {
    if hi <= lo then {} else Ids(lo, hi - 1) + {hi - 1}
  }
}
