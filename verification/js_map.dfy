/**
 * The keyed de-duplication the handler performs with two JavaScript `Map`s.
 *
 * `map.set(k, v)` overwrites the value stored under `k` but leaves `k` at
 * the position of its first insertion, so `Array.from(map.values())` lists
 * one value per key, keys in order of first appearance, each with the value
 * of the last write to it. `Dedup` states that outcome directly on the list
 * of writes; `OrderedMap` is the mutable map, proved to produce it.
 */
module JsMap {

  /** The keys of a list of writes, in order. */
  function KeysOf<V>(writes: seq<(string, V)>): (ks: seq<string>)
    ensures |ks| == |writes|
    ensures forall i :: 0 <= i < |writes| ==> ks[i] == writes[i].0
  {
    seq(|writes|, i requires 0 <= i < |writes| => writes[i].0)
  }

  ghost predicate NoDuplicates(ks: seq<string>)
  {
    forall i, j :: 0 <= i < j < |ks| ==> ks[i] != ks[j]
  }

  /** The position of the first occurrence of `k`. */
  function FirstIndex(ks: seq<string>, k: string): (i: nat)
    requires k in ks
    ensures i < |ks| && ks[i] == k
    ensures k !in ks[..i]
  {
    if k in ks[..|ks| - 1] then FirstIndex(ks[..|ks| - 1], k) else |ks| - 1
  }

  /** The distinct keys of `ks`, each once, in order of first appearance. */
  function FirstOrder(ks: seq<string>): (r: seq<string>)
    ensures NoDuplicates(r)
    ensures forall k :: k in r <==> k in ks
  {
    if ks == [] then []
    else
      var prev := FirstOrder(ks[..|ks| - 1]);
      var k := ks[|ks| - 1];
      assert forall x :: x in ks <==> x in ks[..|ks| - 1] || x == k;
      if k in prev then prev else prev + [k]
  }

  /** The position of the last write to `k`: no later write touches `k`. */
  function LastIndex<V>(writes: seq<(string, V)>, k: string): (j: nat)
    requires k in KeysOf(writes)
    ensures j < |writes| && writes[j].0 == k
    ensures forall j' :: j < j' < |writes| ==> writes[j'].0 != k
  {
    var n := |writes|;
    if writes[n - 1].0 == k then n - 1
    else
      assert KeysOf(writes[..n - 1]) == KeysOf(writes)[..n - 1];
      LastIndex(writes[..n - 1], k)
  }

  /** The value of the last write to `k`. */
  function LastValue<V>(writes: seq<(string, V)>, k: string): V
    requires k in KeysOf(writes)
  {
    writes[LastIndex(writes, k)].1
  }

  /** What `Array.from(map.values())` yields after the writes, on a fresh map. */
  function Dedup<V>(writes: seq<(string, V)>): (vs: seq<V>)
    ensures |vs| <= |writes|
    ensures writes != [] ==> |vs| >= 1
  {
    var ks := FirstOrder(KeysOf(writes));
    FirstOrderLength(KeysOf(writes));
    seq(|ks|, i requires 0 <= i < |ks| => LastValue(writes, ks[i]))
  }

  /** Dropping repeated keys never lengthens the list, and keeps a non-empty list non-empty. */
  lemma {:induction false} FirstOrderLength(ks: seq<string>)
    ensures |FirstOrder(ks)| <= |ks|
    ensures ks != [] ==> |FirstOrder(ks)| >= 1
  {
    if ks != [] {
      FirstOrderLength(ks[..|ks| - 1]);
    }
  }

  // ---------------------------------------------------------------------
  // Properties of the reference

  /** The keys are listed in strictly increasing order of their first appearance. */
  lemma {:induction false} FirstOrderFollowsFirstAppearance(ks: seq<string>)
    ensures forall i, j :: 0 <= i < j < |FirstOrder(ks)| ==>
      FirstIndex(ks, FirstOrder(ks)[i]) < FirstIndex(ks, FirstOrder(ks)[j])
  {
    if ks != [] {
      var prefix := ks[..|ks| - 1];
      FirstOrderFollowsFirstAppearance(prefix);
      var r, prev := FirstOrder(ks), FirstOrder(prefix);
      assert forall x :: x in prefix ==> FirstIndex(ks, x) == FirstIndex(prefix, x);
      assert forall i :: 0 <= i < |prev| ==> FirstIndex(prefix, prev[i]) < |prefix|;
    }
  }

  lemma {:induction false} DistinctCardinality(r: seq<string>)
    requires NoDuplicates(r)
    ensures |set x | x in r| == |r|
  {
    if r != [] {
      var prefix := r[..|r| - 1];
      DistinctCardinality(prefix);
      assert (set x | x in r) == (set x | x in prefix) + {r[|r| - 1]};
    }
  }

  /** One value per distinct key. */
  lemma DedupOnePerKey<V>(writes: seq<(string, V)>)
    ensures |Dedup(writes)| == |set k | k in KeysOf(writes)|
  {
    var ks := FirstOrder(KeysOf(writes));
    DistinctCardinality(ks);
    assert (set k | k in ks) == (set k | k in KeysOf(writes));
  }

  lemma {:induction false} FirstOrderAbsorbs(ks: seq<string>, extra: seq<string>)
    requires forall x :: x in extra ==> x in ks
    ensures FirstOrder(ks + extra) == FirstOrder(ks)
  {
    if extra != [] {
      var m := |extra|;
      assert (ks + extra)[..|ks + extra| - 1] == ks + extra[..m - 1];
      FirstOrderAbsorbs(ks, extra[..m - 1]);
    } else {
      assert ks + extra == ks;
    }
  }

  lemma LastIndexSnoc<V>(writes: seq<(string, V)>, last: (string, V), k: string)
    requires k in KeysOf(writes + [last])
    ensures last.0 != k ==> k in KeysOf(writes)
    ensures LastIndex(writes + [last], k) == if last.0 == k then |writes| else LastIndex(writes, k)
  {
    KeysOfSnoc(writes, last.0, last.1);
  }

  lemma LastValueSnocOther<V>(writes: seq<(string, V)>, last: (string, V), k: string)
    requires k in KeysOf(writes) && last.0 != k
    ensures k in KeysOf(writes + [last])
    ensures LastValue(writes + [last], k) == LastValue(writes, k)
  {
    KeysOfSnoc(writes, last.0, last.1);
    LastIndexSnoc(writes, last, k);
  }

  lemma {:induction false} LastValueOfSuffix<V>(writes: seq<(string, V)>, later: seq<(string, V)>, k: string)
    requires k in KeysOf(later)
    ensures k in KeysOf(writes + later)
    ensures LastValue(writes + later, k) == LastValue(later, k)
  {
    KeysOfAppend(writes, later);
    var m := |later|;
    var p, last := later[..m - 1], later[m - 1];
    assert later == p + [last];
    assert writes + later == (writes + p) + [last];
    KeysOfAppend(writes, p);
    LastIndexSnoc(p, last, k);
    LastIndexSnoc(writes + p, last, k);
    if last.0 != k {
      LastValueOfSuffix(writes, p, k);
      LastValueSnocOther(p, last, k);
      LastValueSnocOther(writes + p, last, k);
    }
  }

  /** Writing the same rows a second time changes nothing. */
  lemma DedupIdempotent<V>(writes: seq<(string, V)>)
    ensures Dedup(writes + writes) == Dedup(writes)
  {
    var ks := KeysOf(writes);
    assert KeysOf(writes + writes) == ks + ks;
    FirstOrderAbsorbs(ks, ks);
    var order := FirstOrder(ks);
    forall i | 0 <= i < |order|
      ensures LastValue(writes + writes, order[i]) == LastValue(writes, order[i])
    {
      LastValueOfSuffix(writes, writes, order[i]);
    }
  }

  /** The value last written to each key appears in the list. */
  lemma LastValueListed<V>(writes: seq<(string, V)>, k: string)
    requires k in KeysOf(writes)
    ensures LastValue(writes, k) in Dedup(writes)
  {
    var ks := FirstOrder(KeysOf(writes));
    var i := FirstIndex(ks, k);
    assert Dedup(writes)[i] == LastValue(writes, k);
  }

  /** Every value in the list was written under some key. */
  lemma ListedWasWritten<V>(writes: seq<(string, V)>, i: nat)
    requires i < |Dedup(writes)|
    ensures exists j :: 0 <= j < |writes| && writes[j].1 == Dedup(writes)[i]
  {
    var ks := FirstOrder(KeysOf(writes));
    var j := LastIndex(writes, ks[i]);
    assert writes[j].1 == Dedup(writes)[i];
  }

  /** A key written once, first, and never again keeps that value. */
  lemma SoleFirstWriteKept<V>(first: seq<(string, V)>, rest: seq<(string, V)>, k: string)
    requires |first| == 1 && first[0].0 == k && k !in KeysOf(rest)
    ensures k in KeysOf(first + rest)
    ensures LastValue(first + rest, k) == first[0].1
  {
    assert KeysOf(first + rest)[0] == k;
  }

  /**
   * When every value carries the key it is written under, the listed values
   * carry the keys in first-insertion order, so no two carry the same key.
   */
  lemma DedupKeyedValues<V>(writes: seq<(string, V)>, keyOf: V -> string)
    requires forall j :: 0 <= j < |writes| ==> keyOf(writes[j].1) == writes[j].0
    ensures forall i :: 0 <= i < |Dedup(writes)| ==> keyOf(Dedup(writes)[i]) == FirstOrder(KeysOf(writes))[i]
    ensures forall i, j :: 0 <= i < j < |Dedup(writes)| ==> keyOf(Dedup(writes)[i]) != keyOf(Dedup(writes)[j])
  {
    var ks := FirstOrder(KeysOf(writes));
    forall i | 0 <= i < |ks|
      ensures keyOf(Dedup(writes)[i]) == ks[i]
    {
      var j := LastIndex(writes, ks[i]);
      assert Dedup(writes)[i] == writes[j].1;
    }
  }

  // ---------------------------------------------------------------------
  // One more write

  lemma KeysOfAppend<V>(a: seq<(string, V)>, b: seq<(string, V)>)
    ensures KeysOf(a + b) == KeysOf(a) + KeysOf(b)
  {
  }

  lemma KeysOfSnoc<V>(writes: seq<(string, V)>, k: string, v: V)
    ensures KeysOf(writes + [(k, v)]) == KeysOf(writes) + [k]
    ensures (writes + [(k, v)])[..|writes|] == writes
  {
  }

  /** `keys` and `values` are what a fresh `Map` holds after `writes`. */
  ghost predicate Models<V>(keys: seq<string>, values: map<string, V>, writes: seq<(string, V)>)
  {
    && keys == FirstOrder(KeysOf(writes))
    && (forall k :: k in values <==> k in keys)
    && (forall k :: k in values ==> k in KeysOf(writes) && values[k] == LastValue(writes, k))
  }

  lemma FirstOrderSnoc<V>(writes: seq<(string, V)>, k: string, v: V)
    ensures FirstOrder(KeysOf(writes + [(k, v)])) ==
      if k in KeysOf(writes) then FirstOrder(KeysOf(writes)) else FirstOrder(KeysOf(writes)) + [k]
  {
    var ks := KeysOf(writes + [(k, v)]);
    KeysOfSnoc(writes, k, v);
    assert ks[..|ks| - 1] == KeysOf(writes);
  }

  /** One more `set` appends its key to the key list exactly when the key is new. */
  lemma SetKeysStep<V>(keys: seq<string>, values: map<string, V>, writes: seq<(string, V)>, k: string, v: V)
    requires Models(keys, values, writes)
    ensures (if k in values then keys else keys + [k]) == FirstOrder(KeysOf(writes + [(k, v)]))
  {
    FirstOrderSnoc(writes, k, v);
    assert k in values <==> k in KeysOf(writes);
  }

  /** After one more `set`, every stored value is the last one written to its key. */
  lemma SetValuesStep<V>(keys: seq<string>, values: map<string, V>, writes: seq<(string, V)>, k: string, v: V)
    requires Models(keys, values, writes)
    ensures forall x :: x in values[k := v] ==>
      x in KeysOf(writes + [(k, v)]) && values[k := v][x] == LastValue(writes + [(k, v)], x)
  {
    KeysOfSnoc(writes, k, v);
    forall x | x in values[k := v]
      ensures x in KeysOf(writes + [(k, v)]) && values[k := v][x] == LastValue(writes + [(k, v)], x)
    {
      if x == k {
        LastIndexSnoc(writes, (k, v), k);
      } else {
        LastValueSnocOther(writes, (k, v), x);
      }
    }
  }

  /** One more `set` keeps the pair of fields in step with the writes. */
  lemma SetKeepsModel<V>(keys: seq<string>, values: map<string, V>, writes: seq<(string, V)>, k: string, v: V)
    requires Models(keys, values, writes)
    ensures Models(if k in values then keys else keys + [k], values[k := v], writes + [(k, v)])
  {
    SetKeysStep(keys, values, writes, k, v);
    SetValuesStep(keys, values, writes, k, v);
  }

  /**
   * A JavaScript `Map` with string keys: a list of keys in insertion order
   * and the current value of each. `writes` records every `set` so far.
   */
  class OrderedMap<V> {
    var keys: seq<string>
    var values: map<string, V>
    ghost var writes: seq<(string, V)>

    ghost predicate Valid()
      reads this
    {
      Models(keys, values, writes)
    }

    constructor ()
      ensures Valid() && writes == []
    {
      keys, values, writes := [], map[], [];
    }

    /** `map.set(k, v)`. */
    method Set(k: string, v: V)
      requires Valid()
      modifies this
      ensures Valid()
      ensures writes == old(writes) + [(k, v)]
      ensures keys == if k in old(values) then old(keys) else old(keys) + [k]
      ensures values == old(values)[k := v]
    {
      SetKeepsModel(keys, values, writes, k, v);
      if k !in values {
        keys := keys + [k];
      }
      values := values[k := v];
      writes := writes + [(k, v)];
    }

    /** `Array.from(map.values())`. */
    function ValueList(): (vs: seq<V>)
      reads this
      requires Valid()
      ensures vs == Dedup(writes)
    {
      seq(|keys|, i reads this requires Valid() && 0 <= i < |keys| => values[keys[i]])
    }
  }
}
