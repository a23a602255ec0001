/**
 * Python's collections.Counter over strings, as far as the tally uses it:
 * counts per key, kept with the order in which keys were first inserted
 * (a dict's iteration order), because Counter.most_common(1) returns the
 * first maximal entry in that order.
 */
module Counting {
  import opened Wrappers

  datatype CounterRep = CounterRep(counts: map<string, nat>, order: seq<string>) {
    /** The order lists each key exactly once, and every stored count is positive. */
    predicate Valid() {
      && (forall i, j | 0 <= i < j < |order| :: order[i] != order[j])
      && (forall k | k in order :: k in counts)
      && (forall k | k in counts :: k in order && counts[k] >= 1)
    }
  }

  type Counter = c: CounterRep | c.Valid() witness CounterRep(map[], [])

  /** Counter(): nothing counted. */
  function Empty(): (c: Counter)
    ensures forall k :: Get(c, k) == 0
  {
    CounterRep(map[], [])
  }

  /** counter[k], which is 0 for a key never counted. */
  function Get(c: Counter, k: string): nat {
    if k in c.counts then c.counts[k] else 0
  }

  /** counter.update([k]): one more k; a new key goes to the end of the order. */
  function Add(c: Counter, k: string): (r: Counter)
    ensures Get(r, k) == Get(c, k) + 1
    ensures forall k' | k' != k :: Get(r, k') == Get(c, k')
    ensures r.order == if k in c.counts then c.order else c.order + [k]
  {
    if k in c.counts then CounterRep(c.counts[k := c.counts[k] + 1], c.order)
    else CounterRep(c.counts[k := 1], c.order + [k])
  }

  /** The sum of the counts, summed in key order. */
  function SumOver(keys: seq<string>, counts: map<string, nat>): nat
    requires forall k | k in keys :: k in counts
  {
    if keys == [] then 0 else SumOver(keys[..|keys| - 1], counts) + counts[keys[|keys| - 1]]
  }

  function Total(c: Counter): nat {
    SumOver(c.order, c.counts)
  }

  /** Changing the count of a key outside the list leaves the sum alone. */
  lemma {:induction false} SumOverOther(keys: seq<string>, counts: map<string, nat>, k: string, v: nat)
    requires forall x | x in keys :: x in counts
    requires k !in keys
    ensures SumOver(keys, counts[k := v]) == SumOver(keys, counts)
  {
    if keys != [] {
      SumOverOther(keys[..|keys| - 1], counts, k, v);
    }
  }

  /** Adding one to the count of a key listed exactly once adds one to the sum. */
  lemma {:induction false} SumOverBump(keys: seq<string>, counts: map<string, nat>, k: string)
    requires forall x | x in keys :: x in counts
    requires forall i, j | 0 <= i < j < |keys| :: keys[i] != keys[j]
    requires k in keys
    ensures SumOver(keys, counts[k := counts[k] + 1]) == SumOver(keys, counts) + 1
  {
    var init := keys[..|keys| - 1];
    var last := keys[|keys| - 1];
    if last == k {
      assert forall i | 0 <= i < |init| :: init[i] != k;
      SumOverOther(init, counts, k, counts[k] + 1);
    } else {
      assert k in init by {
        var i :| 0 <= i < |keys| && keys[i] == k;
        assert init[i] == k;
      }
      SumOverBump(init, counts, k);
    }
  }

  /** Appending a new key with count v adds v to the sum. */
  lemma SumOverAppendNew(keys: seq<string>, counts: map<string, nat>, k: string, v: nat)
    requires forall x | x in keys :: x in counts
    requires k !in keys
    ensures SumOver(keys + [k], counts[k := v]) == SumOver(keys, counts) + v
  {
    var r := keys + [k];
    assert r[..|r| - 1] == keys;
    SumOverOther(keys, counts, k, v);
  }

  /** counter.update([k]) adds exactly one to the total. */
  lemma AddTotal(c: Counter, k: string)
    ensures Total(Add(c, k)) == Total(c) + 1
  {
    if k in c.counts {
      SumOverBump(c.order, c.counts, k);
    } else {
      SumOverAppendNew(c.order, c.counts, k, 1);
    }
  }

  /**
   * Key i of the order is the one Counter.most_common(1) reports: its count is
   * maximal, and every key inserted before it has a strictly smaller count.
   */
  ghost predicate FirstPlurality(c: Counter, i: nat) {
    && i < |c.order|
    && (forall k | k in c.counts :: c.counts[k] <= c.counts[c.order[i]])
    && (forall j | 0 <= j < i :: c.counts[c.order[j]] < c.counts[c.order[i]])
  }

  /** The index max() keeps when it scans the order and replaces only on a strictly larger count. */
  function FirstMaxIndex(order: seq<string>, counts: map<string, nat>): (i: nat)
    requires order != [] && forall k | k in order :: k in counts
    ensures i < |order|
    ensures forall j | 0 <= j < |order| :: counts[order[j]] <= counts[order[i]]
    ensures forall j | 0 <= j < i :: counts[order[j]] < counts[order[i]]
  {
    if |order| == 1 then 0
    else
      var best := FirstMaxIndex(order[..|order| - 1], counts);
      if counts[order[|order| - 1]] > counts[order[best]] then |order| - 1 else best
  }

  /** Counter.most_common(1): nothing for an empty counter, otherwise the first plurality key. */
  function MostCommon(c: Counter): (r: Option<string>)
    ensures r.None? <==> c.counts == map[]
    ensures r.Some? ==> exists i: nat :: FirstPlurality(c, i) && c.order[i] == r.value
  {
    if c.order == [] then
      assert forall k | k in c.counts :: false;
      None
    else
      var i := FirstMaxIndex(c.order, c.counts);
      assert FirstPlurality(c, i);
      Some(c.order[i])
  }

  /** At most one key is the first plurality, so most_common(1) has exactly one correct answer. */
  lemma FirstPluralityUnique(c: Counter, i: nat, i': nat)
    requires FirstPlurality(c, i) && FirstPlurality(c, i')
    ensures i == i'
  {
    assert c.order[i] in c.counts && c.order[i'] in c.counts;
  }
}
