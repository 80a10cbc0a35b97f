/** Order-keeping filters over sequences, the model of PHP's `array_filter`
    (keys kept, so iteration order kept). */
module Sequences {

  /** The elements of `s` that satisfy `p`, in their original order. */
  function Filter<V>(s: seq<V>, p: V -> bool): (r: seq<V>)
    ensures |r| <= |s|
    ensures forall x | x in r :: p(x) && x in s
    ensures forall x | x in s && p(x) :: x in r
  {
    if s == [] then []
    else if p(s[0]) then [s[0]] + Filter(s[1..], p)
    else Filter(s[1..], p)
  }

  /** Every index of `idx` moved one place to the right. */
  function Shift(idx: seq<nat>): (r: seq<nat>)
    ensures |r| == |idx|
    ensures forall k | 0 <= k < |r| :: r[k] == idx[k] + 1
  {
    if idx == [] then [] else [idx[0] + 1] + Shift(idx[1..])
  }

  /** A shifted index list holds `i + 1` exactly when the original holds `i`,
      and never holds 0. */
  lemma ShiftMembership(idx: seq<nat>)
    ensures 0 !in Shift(idx)
    ensures forall i: nat :: i + 1 in Shift(idx) <==> i in idx
  {
    var r := Shift(idx);
    forall i: nat ensures i + 1 in r <==> i in idx {
      if i + 1 in r {
        var k :| 0 <= k < |r| && r[k] == i + 1;
        assert idx[k] == i;
      }
      if i in idx {
        var k :| 0 <= k < |idx| && idx[k] == i;
        assert r[k] == i + 1;
      }
    }
  }

  /** The positions of `s` whose element satisfies `p`, in increasing order. */
  function KeptPositions<V>(s: seq<V>, p: V -> bool): seq<nat> {
    if s == [] then []
    else if p(s[0]) then [0] + Shift(KeptPositions(s[1..], p))
    else Shift(KeptPositions(s[1..], p))
  }

  /** Each kept position holds the matching element of `Filter`'s output,
      so there are as many positions as outputs. */
  lemma {:induction false} KeptPositionsPick<V>(s: seq<V>, p: V -> bool)
    ensures |KeptPositions(s, p)| == |Filter(s, p)|
    ensures forall k | 0 <= k < |KeptPositions(s, p)| ::
      KeptPositions(s, p)[k] < |s| && s[KeptPositions(s, p)[k]] == Filter(s, p)[k]
  {
    if s != [] {
      var tail := s[1..];
      KeptPositionsPick(tail, p);
      var rest := KeptPositions(tail, p);
      var idx := KeptPositions(s, p);
      var kept := Filter(s, p);
      var keptRest := Filter(tail, p);
      if p(s[0]) {
        assert idx == [0] + Shift(rest) && kept == [s[0]] + keptRest;
        forall k | 0 <= k < |idx| ensures idx[k] < |s| && s[idx[k]] == kept[k] {
          if k > 0 {
            assert idx[k] == rest[k - 1] + 1 && kept[k] == keptRest[k - 1];
            assert s[rest[k - 1] + 1] == tail[rest[k - 1]];
          }
        }
      } else {
        assert idx == Shift(rest) && kept == keptRest;
        forall k | 0 <= k < |idx| ensures idx[k] < |s| && s[idx[k]] == kept[k] {
          assert idx[k] == rest[k] + 1;
          assert s[rest[k] + 1] == tail[rest[k]];
        }
      }
    }
  }

  /** The kept positions strictly increase. */
  lemma {:induction false} KeptPositionsIncrease<V>(s: seq<V>, p: V -> bool)
    ensures forall k, l | 0 <= k < l < |KeptPositions(s, p)| ::
      KeptPositions(s, p)[k] < KeptPositions(s, p)[l]
  {
    if s != [] {
      var rest := KeptPositions(s[1..], p);
      KeptPositionsIncrease(s[1..], p);
      var idx := KeptPositions(s, p);
      if p(s[0]) {
        assert idx == [0] + Shift(rest);
        forall k, l | 0 <= k < l < |idx| ensures idx[k] < idx[l] {
          assert idx[l] == rest[l - 1] + 1;
          if k > 0 {
            assert idx[k] == rest[k - 1] + 1;
          }
        }
      } else {
        assert idx == Shift(rest);
      }
    }
  }

  /** A position is kept exactly when its element satisfies `p`. */
  lemma {:induction false} KeptPositionsExact<V>(s: seq<V>, p: V -> bool)
    ensures forall i | 0 <= i < |s| :: p(s[i]) <==> i in KeptPositions(s, p)
  {
    if s != [] {
      var tail := s[1..];
      var rest := KeptPositions(tail, p);
      KeptPositionsExact(tail, p);
      ShiftMembership(rest);
      var idx := KeptPositions(s, p);
      forall i | 0 <= i < |s| ensures p(s[i]) <==> i in idx {
        if i > 0 {
          var j: nat := i - 1;
          assert s[i] == tail[j];
          assert j + 1 in Shift(rest) <==> j in rest;
        }
      }
    }
  }

  /** `Filter` returns a subsequence: its elements are those of `s` at the
      positions satisfying `p`, each position once and in increasing order. */
  lemma FilterIsSubsequence<V>(s: seq<V>, p: V -> bool)
    ensures |KeptPositions(s, p)| == |Filter(s, p)|
    ensures forall k | 0 <= k < |KeptPositions(s, p)| ::
      KeptPositions(s, p)[k] < |s| && s[KeptPositions(s, p)[k]] == Filter(s, p)[k]
    ensures forall k, l | 0 <= k < l < |KeptPositions(s, p)| ::
      KeptPositions(s, p)[k] < KeptPositions(s, p)[l]
    ensures forall i | 0 <= i < |s| :: p(s[i]) <==> i in KeptPositions(s, p)
  {
    KeptPositionsPick(s, p);
    KeptPositionsIncrease(s, p);
    KeptPositionsExact(s, p);
  }

  /** Filtering distributes over concatenation. Together with the
      one-element case, which is `Filter`'s own first step, this fixes the
      result: the kept elements, each as often as it occurs, in order. */
  lemma {:induction false} FilterAppend<V>(a: seq<V>, b: seq<V>, p: V -> bool)
    ensures Filter(a + b, p) == Filter(a, p) + Filter(b, p)
  {
    if a == [] {
      assert a + b == b;
    } else {
      assert (a + b)[0] == a[0];
      assert (a + b)[1..] == a[1..] + b;
      FilterAppend(a[1..], b, p);
    }
  }

  /** Appending one element adds it to the result exactly when it is kept. */
  lemma FilterAppendOne<V>(s: seq<V>, x: V, p: V -> bool)
    ensures Filter(s + [x], p) == Filter(s, p) + (if p(x) then [x] else [])
  {
    FilterAppend(s, [x], p);
    assert [x][1..] == [];
  }

  /** A key that tells the elements of `s` apart still tells apart the
      elements `Filter` keeps: nothing is kept twice. */
  lemma FilterKeepsDistinct<V, K>(s: seq<V>, p: V -> bool, key: V -> K)
    requires forall i, j | 0 <= i < j < |s| :: key(s[i]) != key(s[j])
    ensures forall i, j | 0 <= i < j < |Filter(s, p)| :: key(Filter(s, p)[i]) != key(Filter(s, p)[j])
  {
    KeptPositionsPick(s, p);
    KeptPositionsIncrease(s, p);
    var idx := KeptPositions(s, p);
    var kept := Filter(s, p);
    forall i, j | 0 <= i < j < |kept| ensures key(kept[i]) != key(kept[j]) {
      assert idx[i] < idx[j] < |s|;
      assert kept[i] == s[idx[i]] && kept[j] == s[idx[j]];
    }
  }

  /** Filtering on a predicate and on its negation splits the sequence. */
  lemma {:induction false} FilterComplement<V>(s: seq<V>, p: V -> bool, q: V -> bool)
    requires forall x | x in s :: q(x) == !p(x)
    ensures |Filter(s, p)| + |Filter(s, q)| == |s|
  {
    if s != [] {
      assert forall x | x in s[1..] :: q(x) == !p(x) by {
        forall x | x in s[1..] ensures q(x) == !p(x) {
          assert x in s;
        }
      }
      FilterComplement(s[1..], p, q);
    }
  }
}

/** A PHP array with string keys, the storage of both in-memory
    repositories: a map from key to value plus the keys in first-insertion
    order. Assigning to an existing key keeps its position; assigning to a
    new key appends it; `unset` removes the key and closes the gap. */
module Tables {
  import opened Wrappers

  datatype Table<V> = Table(entries: map<string, V>, order: seq<string>)

  ghost predicate NoDuplicates(s: seq<string>) {
    forall i, j | 0 <= i < j < |s| :: s[i] != s[j]
  }

  /** The order lists each stored key exactly once. */
  ghost predicate Valid<V>(t: Table<V>) {
    && NoDuplicates(t.order)
    && (forall k :: k in t.entries <==> k in t.order)
  }

  function Empty<V>(): (t: Table<V>)
    ensures Valid(t) && t.entries == map[] && t.order == []
  {
    Table(map[], [])
  }

  function Get<V>(t: Table<V>, k: string): Option<V> {
    if k in t.entries then Some(t.entries[k]) else None
  }

  /** `$a[$k] = $v`. */
  function Put<V>(t: Table<V>, k: string, v: V): (r: Table<V>)
    requires Valid(t)
    ensures Valid(r)
    ensures Get(r, k) == Some(v)
    ensures forall k' | k' != k :: Get(r, k') == Get(t, k')
    ensures k in t.entries ==> r.order == t.order
    ensures k !in t.entries ==> r.order == t.order + [k]
  {
    if k in t.entries then Table(t.entries[k := v], t.order)
    else Table(t.entries[k := v], t.order + [k])
  }

  /** Assigning to a new key appends its value to `array_values`. */
  lemma PutNewValues<V>(t: Table<V>, k: string, v: V)
    requires Valid(t) && k !in t.entries
    ensures Values(Put(t, k, v)) == Values(t) + [v]
  {
    var r := Put(t, k, v);
    forall i | 0 <= i < |r.order| ensures Values(r)[i] == (Values(t) + [v])[i] {
      if i < |t.order| {
        assert t.order[i] in t.entries;
      }
    }
  }

  /** Assigning to a stored key replaces its value in place. */
  lemma PutOldValues<V>(t: Table<V>, k: string, v: V)
    requires Valid(t) && k in t.entries
    ensures |Values(Put(t, k, v))| == |Values(t)|
    ensures forall i | 0 <= i < |t.order| ::
      Values(Put(t, k, v))[i] == if t.order[i] == k then v else Values(t)[i]
  {
  }

  /** `array_values` after `$a[$k] = $v`, for a table whose values carry
      their own key: a new key appends `v`, a stored key is replaced by `v`
      where it stands. */
  lemma PutValues<V>(t: Table<V>, k: string, v: V, key: V -> string)
    requires Valid(t) && forall k' | k' in t.entries :: key(t.entries[k']) == k'
    ensures k !in t.entries ==> Values(Put(t, k, v)) == Values(t) + [v]
    ensures k in t.entries ==>
      && |Values(Put(t, k, v))| == |Values(t)|
      && forall i | 0 <= i < |Values(t)| ::
           Values(Put(t, k, v))[i] == if key(Values(t)[i]) == k then v else Values(t)[i]
  {
    if k in t.entries {
      PutOldValues(t, k, v);
    } else {
      PutNewValues(t, k, v);
    }
  }

  /** `s` without `k`, the rest in order. */
  function Without(s: seq<string>, k: string): (r: seq<string>)
    ensures forall x :: x in r <==> x in s && x != k
    ensures NoDuplicates(s) ==> NoDuplicates(r)
    ensures k !in s ==> r == s
  {
    if s == [] then []
    else if s[0] == k then Without(s[1..], k)
    else
      var rest := Without(s[1..], k);
      assert NoDuplicates(s) ==> NoDuplicates(s[1..]) && s[0] !in s[1..];
      [s[0]] + rest
  }

  /** `unset($a[$k])`. */
  function Remove<V>(t: Table<V>, k: string): (r: Table<V>)
    requires Valid(t)
    ensures Valid(r) && r.entries == t.entries - {k}
    ensures Get(r, k) == None
    ensures forall k' | k' != k :: Get(r, k') == Get(t, k')
    ensures k !in t.entries ==> r == t
  {
    Table(t.entries - {k}, Without(t.order, k))
  }

  /** In a duplicate-free sequence, dropping `k` closes the gap it leaves. */
  lemma {:induction false} WithoutAt(s: seq<string>, k: string, i: nat)
    requires NoDuplicates(s) && i < |s| && s[i] == k
    ensures Without(s, k) == s[..i] + s[i + 1..]
  {
    if i == 0 {
      assert k !in s[1..] by {
        forall j | 0 <= j < |s[1..]| ensures s[1..][j] != k {
          assert s[1..][j] == s[j + 1];
        }
      }
    } else {
      assert s[0] != k;
      assert NoDuplicates(s[1..]) by {
        forall a, b | 0 <= a < b < |s[1..]| ensures s[1..][a] != s[1..][b] {
          assert s[1..][a] == s[a + 1] && s[1..][b] == s[b + 1];
        }
      }
      WithoutAt(s[1..], k, i - 1);
      assert s[1..][..i - 1] == s[1..i];
      assert s[1..][i..] == s[i + 1..];
      assert [s[0]] + s[1..i] == s[..i];
    }
  }

  /** `unset($a[$k])` takes the value out of `array_values` and keeps the
      order of the rest. */
  lemma RemoveValuesAt<V>(t: Table<V>, k: string, i: nat)
    requires Valid(t) && i < |t.order| && t.order[i] == k
    ensures Values(Remove(t, k)) == Values(t)[..i] + Values(t)[i + 1..]
  {
    var r := Remove(t, k);
    WithoutAt(t.order, k, i);
    var expected := Values(t)[..i] + Values(t)[i + 1..];
    assert |Values(r)| == |expected|;
    forall j | 0 <= j < |expected| ensures Values(r)[j] == expected[j] {
      if j < i {
        assert r.order[j] == t.order[j];
      } else {
        assert r.order[j] == t.order[j + 1];
      }
    }
  }

  /** `array_values($a)`: the stored values in key order. */
  function Values<V>(t: Table<V>): (vs: seq<V>)
    requires Valid(t)
    ensures |vs| == |t.order|
    ensures forall i | 0 <= i < |vs| :: t.order[i] in t.entries && vs[i] == t.entries[t.order[i]]
  {
    seq(|t.order|, i requires 0 <= i < |t.order| && Valid(t) => t.entries[t.order[i]])
  }

  /** Every stored value appears in `Values`. */
  lemma ValuesComplete<V>(t: Table<V>, k: string)
    requires Valid(t) && k in t.entries
    ensures t.entries[k] in Values(t)
  {
    var i :| 0 <= i < |t.order| && t.order[i] == k;
    assert Values(t)[i] == t.entries[k];
  }

  /** A duplicate-free sequence has as many elements as its set. */
  lemma {:induction false} DistinctCount(s: seq<string>)
    requires NoDuplicates(s)
    ensures |set x | x in s| == |s|
  {
    if s != [] {
      var init := s[..|s| - 1];
      var last := s[|s| - 1];
      assert NoDuplicates(init);
      DistinctCount(init);
      assert (set x | x in s) == (set x | x in init) + {last};
      assert last !in init;
    }
  }

  /** `count(array_values($a))` is the number of stored keys. */
  lemma SizeIsKeyCount<V>(t: Table<V>)
    requires Valid(t)
    ensures |Values(t)| == |t.entries|
  {
    DistinctCount(t.order);
    assert t.entries.Keys == set x | x in t.order;
  }
}
