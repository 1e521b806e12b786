/** The cache of integer ranges already seen, kept as a list of closed intervals. */
module RangeCache {

  datatype RangeValue = RangeValue(lo: int, hi: int)

  predicate Within(r: RangeValue, x: int) { r.lo <= x <= r.hi }

  /** x lies in one of the ranges. */
  predicate Covered(ranges: seq<RangeValue>, x: int) {
    exists i | 0 <= i < |ranges| :: Within(ranges[i], x)
  }

  predicate Ordered(ranges: seq<RangeValue>) {
    forall i | 0 <= i < |ranges| :: ranges[i].lo <= ranges[i].hi
  }

  /** Two ranges share an integer exactly when neither lies wholly to one side of the other. */
  lemma SharedPoint(a: RangeValue, b: RangeValue)
    requires a.lo <= a.hi && b.lo <= b.hi
    ensures (exists x :: Within(a, x) && Within(b, x)) <==> !(b.hi < a.lo || b.lo > a.hi)
  {
    if !(b.hi < a.lo || b.lo > a.hi) {
      var x := if a.lo > b.lo then a.lo else b.lo;
      assert Within(a, x) && Within(b, x);
    }
  }

  class Cache {
    var ranges: seq<RangeValue>
    /** Everything added so far, in order. */
    ghost var added: seq<RangeValue>

    /** The list covers exactly what was added. */
    ghost predicate Valid()
      reads this
    {
      Ordered(ranges) && Ordered(added) && forall x :: Covered(ranges, x) <==> Covered(added, x)
    }

    constructor ()
      ensures Valid() && added == []
    {
      ranges, added := [], [];
    }

    method AddIndex(index: int) returns (isNew: bool)
      requires Valid()
      modifies this
      ensures Valid() && added == old(added) + [RangeValue(index, index)]
      ensures isNew <==> !Covered(old(added), index)
    {
      added := added + [RangeValue(index, index)];
      CoveredAppend(old(added), RangeValue(index, index));
      for i := 0 to |ranges|
        invariant forall j | 0 <= j < i :: !Within(ranges[j], index)
        invariant ranges == old(ranges) && added == old(added) + [RangeValue(index, index)]
      {
        var v := ranges[i];
        if v.lo <= index && index <= v.hi {
          assert Within(old(ranges)[i], index);
          return false;
        }
      }
      CoveredAppend(ranges, RangeValue(index, index));
      ranges := ranges + [RangeValue(index, index)];
      return true;
    }

    /** Adds a range; it is new exactly when it shares no integer with anything added before. */
    method AddRange(lo: int, hi: int) returns (isNew: bool)
      requires Valid() && lo <= hi
      modifies this
      ensures Valid() && added == old(added) + [RangeValue(lo, hi)]
      ensures isNew <==> forall x | lo <= x <= hi :: !Covered(old(added), x)
    {
      var r := RangeValue(lo, hi);
      added := added + [r];
      CoveredAppend(old(added), r);
      for i := 0 to |ranges|
        invariant forall j | 0 <= j < i :: hi < ranges[j].lo || lo > ranges[j].hi
        invariant ranges == old(ranges) && added == old(added) + [r]
      {
        var v := ranges[i];
        if hi < v.lo {
          continue;
        }
        if lo > v.hi {
          continue;
        }
        var merged := RangeValue(if lo < v.lo then lo else v.lo, if v.hi < hi then hi else v.hi);
        CoveredMerge(ranges, i, r, merged);
        SharedPoint(v, r);
        var x :| Within(v, x) && Within(r, x);
        assert Within(old(ranges)[i], x);
        assert Covered(old(added), x) && lo <= x <= hi;
        ranges := ranges[i := merged];
        return false;
      }
      CoveredAppend(ranges, r);
      ranges := ranges + [r];
      return true;
    }
  }

  lemma CoveredAppend(ranges: seq<RangeValue>, r: RangeValue)
    ensures forall x :: Covered(ranges + [r], x) <==> Covered(ranges, x) || Within(r, x)
  {
    forall x ensures Covered(ranges + [r], x) <==> Covered(ranges, x) || Within(r, x) {
      var all := ranges + [r];
      if Covered(ranges, x) {
        var i :| 0 <= i < |ranges| && Within(ranges[i], x);
        assert Within(all[i], x);
      }
      if Within(r, x) {
        assert Within(all[|ranges|], x);
      }
    }
  }

  /** Widening an overlapping range to the hull covers the union, although the hull may then
      overlap other ranges. */
  lemma CoveredMerge(ranges: seq<RangeValue>, i: nat, r: RangeValue, merged: RangeValue)
    requires i < |ranges| && r.lo <= r.hi && r.hi >= ranges[i].lo && r.lo <= ranges[i].hi
    requires merged.lo == (if r.lo < ranges[i].lo then r.lo else ranges[i].lo)
    requires merged.hi == (if ranges[i].hi < r.hi then r.hi else ranges[i].hi)
    ensures forall x :: Covered(ranges[i := merged], x) <==> Covered(ranges, x) || Within(r, x)
  {
    var all := ranges[i := merged];
    forall x ensures Covered(all, x) <==> Covered(ranges, x) || Within(r, x) {
      if Covered(ranges, x) {
        var j :| 0 <= j < |ranges| && Within(ranges[j], x);
        assert Within(all[j], x);
      }
      if Within(r, x) {
        assert Within(all[i], x);
      }
      if Covered(all, x) {
        var j :| 0 <= j < |all| && Within(all[j], x);
        assert j != i ==> Within(ranges[j], x);
        assert j == i ==> Within(ranges[i], x) || Within(r, x);
      }
    }
  }

  // ----- whole runs -----

  datatype Op = Index(index: int) | Range(r: RangeValue)

  /** The integers that an operation adds. */
  function Added(op: Op): RangeValue {
    match op
    case Index(index) => RangeValue(index, index)
    case Range(r) => r
  }

  function AddedBy(ops: seq<Op>): seq<RangeValue> {
    seq(|ops|, i requires 0 <= i < |ops| => Added(ops[i]))
  }

  /** Operation k adds only integers that no earlier one has added. */
  ghost predicate AllNew(ops: seq<Op>, k: nat)
    requires k < |ops|
  {
    forall x | Within(Added(ops[k]), x) :: !Covered(AddedBy(ops[..k]), x)
  }

  /** Any run of single indices and ranges: each report says exactly whether the addition is all
      new, and in the end the ranges cover the union of what was added. */
  method AddAll(ops: seq<Op>) returns (news: seq<bool>, cache: Cache)
    requires Ordered(AddedBy(ops))
    ensures |news| == |ops|
    ensures forall k | 0 <= k < |ops| :: news[k] <==> AllNew(ops, k)
    ensures forall x :: Covered(cache.ranges, x) <==> Covered(AddedBy(ops), x)
  {
    cache := new Cache();
    news := [];
    for k := 0 to |ops|
      invariant cache.Valid() && fresh(cache) && cache.added == AddedBy(ops[..k]) && |news| == k
      invariant forall j | 0 <= j < k :: news[j] <==> AllNew(ops, j)
    {
      var isNew;
      assert AddedBy(ops)[k] == Added(ops[k]);
      match ops[k] {
        case Index(index) => isNew := cache.AddIndex(index);
        case Range(r) => isNew := cache.AddRange(r.lo, r.hi);
      }
      assert AddedBy(ops[..k + 1]) == AddedBy(ops[..k]) + [Added(ops[k])];
      news := news + [isNew];
    }
    assert ops[..|ops|] == ops;
  }
}
