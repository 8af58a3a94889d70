/** `extend(target, ...sources)`: copies every enumerable property of each
    source onto the target, source by source, so that a later source
    overrides an earlier one and the target keeps only what no source
    supplies. The function mutates and returns `target`; here it returns the
    updated object. */
module Merge {
  import opened Wrappers
  import opened Json

  /** Source `j` supplies the key `k`. */
  ghost predicate SuppliedBy(sources: seq<Option<Value>>, j: int, k: string) {
    0 <= j < |sources| && k in Enumerable(sources[j])
  }

  /** No source after position `j` supplies `k`. */
  ghost predicate LastSupplier(sources: seq<Option<Value>>, j: int, k: string) {
    SuppliedBy(sources, j, k) && forall j' :: j < j' < |sources| ==> !SuppliedBy(sources, j', k)
  }

  function Extend(target: Object, sources: seq<Option<Value>>): Object
    decreases |sources|
  {
    if |sources| == 0 then target
    else Extend(target, sources[..|sources| - 1]) + Enumerable(sources[|sources| - 1])
  }

  /** The keys of `extend`'s result: exactly the target's keys and every
      key some source supplies. */
  lemma {:induction false} ExtendKeys(target: Object, sources: seq<Option<Value>>)
    ensures forall k :: k in Extend(target, sources) <==> k in target || exists j :: SuppliedBy(sources, j, k)
    decreases |sources|
  {
    if |sources| > 0 {
      var n := |sources| - 1;
      var pre := sources[..n];
      ExtendKeys(target, pre);
      forall k
        ensures k in Extend(target, sources) <==> k in target || exists j :: SuppliedBy(sources, j, k)
      {
        if k in Enumerable(sources[n]) {
          assert SuppliedBy(sources, n, k);
        } else {
          if exists j :: SuppliedBy(sources, j, k) {
            var j :| SuppliedBy(sources, j, k);
            assert SuppliedBy(pre, j, k);
          }
          if exists j :: SuppliedBy(pre, j, k) {
            var j :| SuppliedBy(pre, j, k);
            assert SuppliedBy(sources, j, k);
          }
        }
      }
    }
  }

  /** A supplied key takes the value of the last source that supplies it. */
  lemma {:induction false} ExtendLastSourceWins(target: Object, sources: seq<Option<Value>>, j: int, k: string)
    requires LastSupplier(sources, j, k)
    ensures k in Extend(target, sources) && Extend(target, sources)[k] == Enumerable(sources[j])[k]
    decreases |sources|
  {
    var n := |sources| - 1;
    if j < n {
      var pre := sources[..n];
      assert pre[j] == sources[j];
      assert k !in Enumerable(sources[n]) by {
        assert !SuppliedBy(sources, n, k);
      }
      assert LastSupplier(pre, j, k) by {
        forall j' | j < j' < |pre| ensures !SuppliedBy(pre, j', k) {
          assert !SuppliedBy(sources, j', k);
        }
      }
      ExtendLastSourceWins(target, pre, j, k);
      assert Extend(target, sources) == Extend(target, pre) + Enumerable(sources[n]);
    }
  }

  /** A key no source supplies keeps the target's value. */
  lemma {:induction false} ExtendKeepsTarget(target: Object, sources: seq<Option<Value>>, k: string)
    requires k in target
    requires forall j :: !SuppliedBy(sources, j, k)
    ensures k in Extend(target, sources) && Extend(target, sources)[k] == target[k]
    decreases |sources|
  {
    if |sources| > 0 {
      var n := |sources| - 1;
      var pre := sources[..n];
      assert !SuppliedBy(sources, n, k);
      forall j ensures !SuppliedBy(pre, j, k) {
        assert !SuppliedBy(sources, j, k);
      }
      ExtendKeepsTarget(target, pre, k);
    }
  }
}
