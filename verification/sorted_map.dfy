/** `BTreeMap<String, V>` as a strictly key-sorted association list: the model of
    the ordered maps (and, with unit values, the ordered sets) the program fills
    by repeated `insert` and then reads back in key order. */
module SortedMap {
  import opened Wrappers
  import opened Strings

  /** Keys strictly increase from left to right: the map is ordered and no key
      appears twice. */
  predicate StrictlySorted<V>(m: seq<(string, V)>) {
    forall i, j :: 0 <= i < j < |m| ==> Less(m[i].0, m[j].0)
  }

  function Keys<V>(m: seq<(string, V)>): set<string> {
    set i | 0 <= i < |m| :: m[i].0
  }

  /** `BTreeMap::get`. */
  function Lookup<V>(m: seq<(string, V)>, k: string): (r: Option<V>)
    ensures r.Some? <==> k in Keys(m)
    ensures r.Some? ==> exists i :: 0 <= i < |m| && m[i] == (k, r.value)
  {
    if m == [] then None
    else if m[0].0 == k then Some(m[0].1)
    else
      KeysOfTail(m);
      Lookup(m[1..], k)
  }

  lemma KeysOfTail<V>(m: seq<(string, V)>)
    requires m != []
    ensures Keys(m) == {m[0].0} + Keys(m[1..])
  {
    forall k | k in Keys(m) ensures k in {m[0].0} + Keys(m[1..]) {
      var i :| 0 <= i < |m| && m[i].0 == k;
      if i > 0 {
        assert m[1..][i - 1].0 == k;
      }
    }
    forall k | k in Keys(m[1..]) ensures k in Keys(m) {
      var i :| 0 <= i < |m[1..]| && m[1..][i].0 == k;
      assert m[i + 1].0 == k;
    }
  }

  /** In a strictly sorted map the head's key is below every other key. */
  lemma HeadBelowTail<V>(m: seq<(string, V)>)
    requires StrictlySorted(m) && m != []
    ensures forall k :: k in Keys(m[1..]) ==> Less(m[0].0, k)
  {
    forall k | k in Keys(m[1..]) ensures Less(m[0].0, k) {
      var i :| 0 <= i < |m[1..]| && m[1..][i].0 == k;
      assert m[i + 1].0 == k;
    }
  }

  lemma ConsSorted<V>(e: (string, V), m: seq<(string, V)>)
    requires StrictlySorted(m)
    requires forall k :: k in Keys(m) ==> Less(e.0, k)
    ensures StrictlySorted([e] + m)
  {
    var r := [e] + m;
    forall i, j | 0 <= i < j < |r| ensures Less(r[i].0, r[j].0) {
      if i > 0 {
        assert r[i] == m[i - 1] && r[j] == m[j - 1];
      } else {
        assert r[j].0 == m[j - 1].0 && m[j - 1].0 in Keys(m);
      }
    }
  }

  /** `BTreeMap::insert`: the new map and the value previously stored under
      `k`, if any. An existing value is overwritten. */
  function Insert<V>(m: seq<(string, V)>, k: string, v: V): (r: (seq<(string, V)>, Option<V>))
    requires StrictlySorted(m)
    ensures StrictlySorted(r.0)
    ensures Keys(r.0) == Keys(m) + {k}
    ensures r.1 == Lookup(m, k)
    ensures Lookup(r.0, k) == Some(v)
    ensures forall k' :: k' != k ==> Lookup(r.0, k') == Lookup(m, k')
    ensures |r.0| == if r.1.None? then |m| + 1 else |m|
  {
    if m == [] then
      assert [(k, v)][0].0 == k;
      ([(k, v)], None)
    else if m[0].0 == k then
      InsertReplacingHead(m, k, v);
      ([(k, v)] + m[1..], Some(m[0].1))
    else if Less(k, m[0].0) then
      InsertBeforeHead(m, k, v);
      ([(k, v)] + m, None)
    else
      var (rest, prev) := Insert(m[1..], k, v);
      InsertAfterHead(m, k, v, rest);
      ([m[0]] + rest, prev)
  }

  lemma InsertReplacingHead<V>(m: seq<(string, V)>, k: string, v: V)
    requires StrictlySorted(m) && m != [] && m[0].0 == k
    ensures var r := [(k, v)] + m[1..];
      StrictlySorted(r)
      && Keys(r) == Keys(m) + {k}
      && Lookup(r, k) == Some(v)
      && forall k' :: k' != k ==> Lookup(r, k') == Lookup(m, k')
  {
    var r := [(k, v)] + m[1..];
    KeysOfTail(m);
    KeysOfTail(r);
    assert r[1..] == m[1..];
    HeadBelowTail(m);
    ConsSorted((k, v), m[1..]);
  }

  lemma InsertBeforeHead<V>(m: seq<(string, V)>, k: string, v: V)
    requires StrictlySorted(m) && m != [] && Less(k, m[0].0)
    ensures Lookup(m, k).None?
    ensures var r := [(k, v)] + m;
      StrictlySorted(r)
      && Keys(r) == Keys(m) + {k}
      && Lookup(r, k) == Some(v)
      && forall k' :: k' != k ==> Lookup(r, k') == Lookup(m, k')
  {
    var r := [(k, v)] + m;
    KeysOfTail(r);
    assert r[1..] == m;
    forall k' | k' in Keys(m) ensures Less(k, k') {
      var i :| 0 <= i < |m| && m[i].0 == k';
      if i > 0 {
        LessTransitive(k, m[0].0, k');
      }
    }
    LessIrreflexive(k);
    ConsSorted((k, v), m);
  }

  lemma InsertAfterHead<V>(m: seq<(string, V)>, k: string, v: V, rest: seq<(string, V)>)
    requires StrictlySorted(m) && m != [] && m[0].0 != k && !Less(k, m[0].0)
    requires StrictlySorted(rest)
    requires Keys(rest) == Keys(m[1..]) + {k}
    requires Lookup(rest, k) == Some(v)
    requires forall k' :: k' != k ==> Lookup(rest, k') == Lookup(m[1..], k')
    ensures Lookup(m, k) == Lookup(m[1..], k)
    ensures var r := [m[0]] + rest;
      StrictlySorted(r)
      && Keys(r) == Keys(m) + {k}
      && Lookup(r, k) == Some(v)
      && forall k' :: k' != k ==> Lookup(r, k') == Lookup(m, k')
  {
    var r := [m[0]] + rest;
    KeysOfTail(m);
    KeysOfTail(r);
    assert r[1..] == rest;
    HeadBelowTail(m);
    LessTotal(k, m[0].0);
    ConsSorted(m[0], rest);
  }

  /** The map built by inserting `key(x), x` for every `x` of `xs`, in order,
      into an empty map. */
  function InsertAll<V>(xs: seq<V>, key: V -> string): (r: seq<(string, V)>)
    ensures StrictlySorted(r)
  {
    if xs == [] then []
    else Insert(InsertAll(xs[..|xs| - 1], key), key(xs[|xs| - 1]), xs[|xs| - 1]).0
  }

  /** Inserting one more element extends the fold by one `insert`; the
      element is reported as new exactly when `insert` returns `None`. */
  lemma InsertAllSnoc<V>(xs: seq<V>, x: V, key: V -> string)
    ensures InsertAll(xs + [x], key) == Insert(InsertAll(xs, key), key(x), x).0
    ensures NewlyInserted(xs + [x], key)
         == NewlyInserted(xs, key) + if Insert(InsertAll(xs, key), key(x), x).1.None? then [x] else []
  {
    assert (xs + [x])[..|xs|] == xs;
  }

  /** The keys of the elements of `xs`. */
  function KeySet<V>(xs: seq<V>, key: V -> string): set<string> {
    set i | 0 <= i < |xs| :: key(xs[i])
  }

  /** The last element of `xs` whose key is `k`. */
  function LastWithKey<V>(xs: seq<V>, key: V -> string, k: string): (r: Option<V>)
    ensures r.Some? ==> r.value in xs && key(r.value) == k
    ensures r.None? <==> k !in KeySet(xs, key)
  {
    if xs == [] then None
    else if key(xs[|xs| - 1]) == k then Some(xs[|xs| - 1])
    else
      var r := LastWithKey(xs[..|xs| - 1], key, k);
      assert r.None? <==> k !in KeySet(xs, key) by {
        KeySetOfInit(xs, key);
      }
      r
  }

  lemma KeySetOfInit<V>(xs: seq<V>, key: V -> string)
    requires xs != []
    ensures KeySet(xs, key) == KeySet(xs[..|xs| - 1], key) + {key(xs[|xs| - 1])}
  {
    var init := xs[..|xs| - 1];
    forall k | k in KeySet(xs, key) ensures k in KeySet(init, key) + {key(xs[|xs| - 1])} {
      var i :| 0 <= i < |xs| && key(xs[i]) == k;
      if i < |xs| - 1 {
        assert key(init[i]) == k;
      }
    }
    forall k | k in KeySet(init, key) ensures k in KeySet(xs, key) {
      var i :| 0 <= i < |init| && key(init[i]) == k;
      assert key(xs[i]) == k;
    }
  }

  /** Insertion with overwrite keeps, under each key, the LAST element of `xs`
      that has that key. */
  lemma {:induction false} InsertAllLookup<V>(xs: seq<V>, key: V -> string, k: string)
    ensures Lookup(InsertAll(xs, key), k) == LastWithKey(xs, key, k)
  {
    if xs != [] {
      InsertAllLookup(xs[..|xs| - 1], key, k);
    }
  }

  /** The map holds exactly one entry per distinct key of `xs`. */
  lemma {:induction false} InsertAllKeys<V>(xs: seq<V>, key: V -> string)
    ensures Keys(InsertAll(xs, key)) == KeySet(xs, key)
  {
    if xs != [] {
      InsertAllKeys(xs[..|xs| - 1], key);
      KeySetOfInit(xs, key);
    }
  }

  /** In a strictly sorted map each entry is the one `Lookup` finds. */
  lemma {:induction false} SortedLookupAt<V>(m: seq<(string, V)>, i: nat)
    requires StrictlySorted(m) && i < |m|
    ensures Lookup(m, m[i].0) == Some(m[i].1)
  {
    if i > 0 {
      LessIrreflexive(m[i].0);
      assert Less(m[0].0, m[i].0);
      SortedLookupAt(m[1..], i - 1);
    }
  }

  /** Each entry of the map built from `xs` holds, under key `k`, the last
      element of `xs` whose key is `k`. */
  lemma InsertAllEntries<V>(xs: seq<V>, key: V -> string)
    ensures forall i :: 0 <= i < |InsertAll(xs, key)| ==>
      var m := InsertAll(xs, key);
      LastWithKey(xs, key, m[i].0) == Some(m[i].1) && key(m[i].1) == m[i].0
  {
    var m := InsertAll(xs, key);
    forall i | 0 <= i < |m|
      ensures LastWithKey(xs, key, m[i].0) == Some(m[i].1) && key(m[i].1) == m[i].0
    {
      SortedLookupAt(m, i);
      InsertAllLookup(xs, key, m[i].0);
    }
  }

  /** Read back in key order, the map built from `xs` has one value per
      distinct key of `xs`, in strictly ascending key order, each the last
      element of `xs` with its key; it is empty only when `xs` is. */
  lemma InsertAllValues<V>(xs: seq<V>, key: V -> string)
    ensures var r := Values(InsertAll(xs, key));
      && |r| == |KeySet(xs, key)|
      && (forall i, j :: 0 <= i < j < |r| ==> Less(key(r[i]), key(r[j])))
      && (forall i :: 0 <= i < |r| ==> LastWithKey(xs, key, key(r[i])) == Some(r[i]))
      && (forall x :: x in xs ==> exists i :: 0 <= i < |r| && key(r[i]) == key(x))
      && (r == [] <==> xs == [])
  {
    var m := InsertAll(xs, key);
    InsertAllEntries(xs, key);
    InsertAllValuesSize(xs, key);
    InsertAllValuesSorted(xs, key);
    InsertAllValuesCover(xs, key);
  }

  lemma InsertAllValuesSize<V>(xs: seq<V>, key: V -> string)
    ensures |Values(InsertAll(xs, key))| == |KeySet(xs, key)|
    ensures Values(InsertAll(xs, key)) == [] <==> xs == []
  {
    var m := InsertAll(xs, key);
    InsertAllKeys(xs, key);
    SortedSize(m);
    if xs != [] {
      assert key(xs[0]) in KeySet(xs, key);
    }
  }

  lemma InsertAllValuesSorted<V>(xs: seq<V>, key: V -> string)
    ensures var r := Values(InsertAll(xs, key));
      forall i, j :: 0 <= i < j < |r| ==> Less(key(r[i]), key(r[j]))
  {
    var m := InsertAll(xs, key);
    InsertAllEntries(xs, key);
    assert forall i :: 0 <= i < |m| ==> key(Values(m)[i]) == m[i].0;
  }

  lemma InsertAllValuesCover<V>(xs: seq<V>, key: V -> string)
    ensures var r := Values(InsertAll(xs, key));
      forall x :: x in xs ==> exists i :: 0 <= i < |r| && key(r[i]) == key(x)
  {
    var m := InsertAll(xs, key);
    var r := Values(m);
    InsertAllEntries(xs, key);
    InsertAllKeys(xs, key);
    forall x | x in xs ensures exists i :: 0 <= i < |r| && key(r[i]) == key(x) {
      assert key(x) in KeySet(xs, key);
      var i :| 0 <= i < |m| && m[i].0 == key(x);
      assert key(r[i]) == key(x);
    }
  }

  lemma KeySetPair<V>(x: V, y: V, key: V -> string)
    ensures KeySet([x, y], key) == {key(x), key(y)}
  {
    var xs := [x, y];
    assert key(xs[0]) == key(x) && key(xs[1]) == key(y);
  }

  /** Two elements with the same key leave one entry: the second. */
  lemma PairSameKey<V>(x: V, y: V, key: V -> string)
    requires key(x) == key(y)
    ensures Values(InsertAll([x, y], key)) == [y]
  {
    var xs := [x, y];
    var r := Values(InsertAll(xs, key));
    InsertAllValues(xs, key);
    KeySetPair(x, y, key);
    assert |r| == 1;
    assert LastWithKey(xs, key, key(r[0])) == Some(r[0]);
    assert key(r[0]) == key(y);
  }

  /** Two elements with different keys are both kept. */
  lemma PairDistinctKeys<V>(x: V, y: V, key: V -> string)
    requires key(x) != key(y)
    ensures var r := Values(InsertAll([x, y], key));
      |r| == 2 && multiset(r) == multiset{x, y}
  {
    var r := Values(InsertAll([x, y], key));
    assert |r| == 2 && r[0] in [x, y] && r[1] in [x, y] && r[0] != r[1] by {
      PairEntries(x, y, key);
    }
    if r[0] == x {
      assert r == [x, y];
    } else {
      assert r == [y, x];
    }
  }

  lemma PairEntries<V>(x: V, y: V, key: V -> string)
    requires key(x) != key(y)
    ensures var r := Values(InsertAll([x, y], key));
      |r| == 2 && r[0] in [x, y] && r[1] in [x, y] && r[0] != r[1]
  {
    var xs := [x, y];
    var m := InsertAll(xs, key);
    var r := Values(m);
    assert |r| == 2 by {
      InsertAllValuesSize(xs, key);
      KeySetPair(x, y, key);
    }
    InsertAllEntries(xs, key);
    assert LastWithKey(xs, key, m[0].0) == Some(m[0].1);
    assert LastWithKey(xs, key, m[1].0) == Some(m[1].1);
    assert m[0].0 != m[1].0 by {
      LessIrreflexive(m[0].0);
    }
  }

  /** A strictly sorted map has as many entries as keys. */
  lemma {:induction false} SortedSize<V>(m: seq<(string, V)>)
    requires StrictlySorted(m)
    ensures |Keys(m)| == |m|
  {
    if m != [] {
      KeysOfTail(m);
      HeadBelowTail(m);
      LessIrreflexive(m[0].0);
      SortedSize(m[1..]);
    }
  }

  /** The values in ascending key order (`BTreeMap::values`). */
  function Values<V>(m: seq<(string, V)>): (r: seq<V>)
    ensures |r| == |m|
    ensures forall i :: 0 <= i < |m| ==> r[i] == m[i].1
  {
    seq(|m|, i requires 0 <= i < |m| => m[i].1)
  }

  /** The keys in ascending order (`BTreeSet::into_iter` for a set). */
  function KeysInOrder<V>(m: seq<(string, V)>): (r: seq<string>)
    ensures |r| == |m|
    ensures forall i :: 0 <= i < |m| ==> r[i] == m[i].0
  {
    seq(|m|, i requires 0 <= i < |m| => m[i].0)
  }

  /** The first element of `xs` whose key is `k`. */
  function FirstWithKey<V>(xs: seq<V>, key: V -> string, k: string): (r: Option<V>)
    ensures r.Some? ==> r.value in xs && key(r.value) == k
  {
    if xs == [] then None
    else if key(xs[0]) == k then Some(xs[0])
    else FirstWithKey(xs[1..], key, k)
  }

  /** The elements of `xs` whose `insert` found the key absent, in order:
      the elements for which `insert` returned `None`. */
  function NewlyInserted<V>(xs: seq<V>, key: V -> string): seq<V> {
    if xs == [] then []
    else
      var m := InsertAll(xs[..|xs| - 1], key);
      NewlyInserted(xs[..|xs| - 1], key)
        + if Insert(m, key(xs[|xs| - 1]), xs[|xs| - 1]).1.None? then [xs[|xs| - 1]] else []
  }

  lemma FirstWithKeyAppend<V>(xs: seq<V>, x: V, key: V -> string, k: string)
    ensures FirstWithKey(xs + [x], key, k)
         == if FirstWithKey(xs, key, k).Some? then FirstWithKey(xs, key, k)
            else if key(x) == k then Some(x) else None
  {
    if xs != [] {
      assert (xs + [x])[1..] == xs[1..] + [x];
      FirstWithKeyAppend(xs[1..], x, key, k);
    }
  }

  lemma {:induction false} FirstWithKeyNone<V>(xs: seq<V>, key: V -> string, k: string)
    ensures FirstWithKey(xs, key, k).None? <==> k !in KeySet(xs, key)
  {
    if xs != [] {
      FirstWithKeyNone(xs[1..], key, k);
      assert KeySet(xs, key) == {key(xs[0])} + KeySet(xs[1..], key) by {
        forall k' | k' in KeySet(xs, key) ensures k' in {key(xs[0])} + KeySet(xs[1..], key) {
          var i :| 0 <= i < |xs| && key(xs[i]) == k';
          if i > 0 {
            assert key(xs[1..][i - 1]) == k';
          }
        }
        forall k' | k' in KeySet(xs[1..], key) ensures k' in KeySet(xs, key) {
          var i :| 0 <= i < |xs[1..]| && key(xs[1..][i]) == k';
          assert key(xs[i + 1]) == k';
        }
      }
    }
  }

  /** An element is reported exactly when its key has not been seen before. */
  lemma NewlyInsertedStep<V>(xs: seq<V>, key: V -> string)
    requires xs != []
    ensures NewlyInserted(xs, key) == NewlyInserted(xs[..|xs| - 1], key)
      + if key(xs[|xs| - 1]) in KeySet(xs[..|xs| - 1], key) then [] else [xs[|xs| - 1]]
  {
    InsertAllKeys(xs[..|xs| - 1], key);
  }

  /** Every distinct key of `xs` is reported. */
  lemma {:induction false} NewlyInsertedKeys<V>(xs: seq<V>, key: V -> string)
    ensures KeySet(NewlyInserted(xs, key), key) == KeySet(xs, key)
  {
    if xs != [] {
      var init, last := xs[..|xs| - 1], xs[|xs| - 1];
      NewlyInsertedKeys(init, key);
      NewlyInsertedStep(xs, key);
      KeySetOfInit(xs, key);
      var n := NewlyInserted(init, key);
      if key(last) !in KeySet(init, key) {
        assert NewlyInserted(xs, key) == n + [last];
        KeySetOfInit(n + [last], key);
        assert (n + [last])[..|n|] == n;
      } else {
        assert NewlyInserted(xs, key) == n;
      }
    }
  }

  /** One element is reported per entry of the final map. */
  lemma {:induction false} NewlyInsertedSize<V>(xs: seq<V>, key: V -> string)
    ensures |NewlyInserted(xs, key)| == |InsertAll(xs, key)|
  {
    if xs != [] {
      var init := xs[..|xs| - 1];
      NewlyInsertedSize(init, key);
      NewlyInsertedStep(xs, key);
      InsertAllKeys(init, key);
    }
  }

  /** Each reported element is the first element of `xs` with its key. */
  lemma {:induction false} NewlyInsertedFirst<V>(xs: seq<V>, key: V -> string)
    ensures forall x :: x in NewlyInserted(xs, key) ==> FirstWithKey(xs, key, key(x)) == Some(x)
  {
    if xs != [] {
      var init, last := xs[..|xs| - 1], xs[|xs| - 1];
      assert xs == init + [last];
      NewlyInsertedFirst(init, key);
      NewlyInsertedStep(xs, key);
      var n := NewlyInserted(init, key);
      forall x | x in NewlyInserted(xs, key) ensures FirstWithKey(xs, key, key(x)) == Some(x) {
        FirstWithKeyAppend(init, last, key, key(x));
        if x !in n {
          FirstWithKeyNone(init, key, key(x));
        }
      }
    }
  }
}
