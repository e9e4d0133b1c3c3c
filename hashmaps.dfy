/**
 * The two `HashMap` behaviours both codec generations rely on: collecting a
 * sequence of pairs into a map, where a later pair overwrites an earlier one
 * with the same key, and iterating a map, whose order is unspecified.
 */
module HashMaps {

  /** `iter.collect::<HashMap<V>>()`: pairs are inserted in order. */
  function Collect<V>(ps: seq<(string, V)>): (m: map<string, V>)
    ensures |m| <= |ps|
    ensures ps != [] ==> ps[|ps| - 1].0 in m && m[ps[|ps| - 1].0] == ps[|ps| - 1].1
  {
    if ps == [] then map[] else Collect(ps[..|ps| - 1])[ps[|ps| - 1].0 := ps[|ps| - 1].1]
  }

  /** Position `i` holds the last pair of `ps` whose key is `ps[i].0`. */
  predicate IsLastWithKey<V>(ps: seq<(string, V)>, i: int) {
    0 <= i < |ps| && forall j :: i < j < |ps| ==> ps[j].0 != ps[i].0
  }

  /** Every key of the pairs is in the collected map. */
  lemma {:induction false} CollectHasKeys<V>(ps: seq<(string, V)>)
    ensures forall i :: 0 <= i < |ps| ==> ps[i].0 in Collect(ps)
  {
    if ps != [] {
      var init := ps[..|ps| - 1];
      CollectHasKeys(init);
      forall i | 0 <= i < |ps| ensures ps[i].0 in Collect(ps) {
        if i < |init| {
          assert init[i] == ps[i];
          assert ps[i].0 in Collect(init);
        }
      }
    }
  }

  /** The collected map has no key that no pair carries. */
  lemma {:induction false} CollectOnlyKeys<V>(ps: seq<(string, V)>, k: string)
    requires k in Collect(ps)
    ensures exists i :: 0 <= i < |ps| && ps[i].0 == k
  {
    var init := ps[..|ps| - 1];
    if k != ps[|ps| - 1].0 {
      CollectOnlyKeys(init, k);
      var i :| 0 <= i < |init| && init[i].0 == k;
      assert ps[i] == init[i];
    }
  }

  /** A key holds the value of the last pair that carries it. */
  lemma {:induction false} CollectLastWins<V>(ps: seq<(string, V)>, i: int)
    requires IsLastWithKey(ps, i)
    ensures ps[i].0 in Collect(ps) && Collect(ps)[ps[i].0] == ps[i].1
  {
    var init := ps[..|ps| - 1];
    if i < |init| {
      assert ps[i] == init[i];
      assert IsLastWithKey(init, i) by {
        forall j | i < j < |init| ensures init[j].0 != init[i].0 {
          assert init[j] == ps[j];
        }
      }
      CollectLastWins(init, i);
    }
  }

  /** Inserting the pairs one at a time: after `i + 1` pairs, the map is the one after `i` with pair `i` inserted. */
  lemma CollectStep<V>(ps: seq<(string, V)>, i: int)
    requires 0 <= i < |ps|
    ensures Collect(ps[..i + 1]) == Collect(ps[..i])[ps[i].0 := ps[i].1]
  {
    assert ps[..i + 1][..i] == ps[..i];
  }

  /** A key that some pair carries has a last pair carrying it. */
  lemma {:induction false} LastWithKeyExists<V>(ps: seq<(string, V)>, k: string, i: int)
    requires 0 <= i < |ps| && ps[i].0 == k
    ensures exists j :: IsLastWithKey(ps, j) && ps[j].0 == k
  {
    var n := |ps| - 1;
    if ps[n].0 == k {
      assert IsLastWithKey(ps, n);
    } else {
      var init := ps[..n];
      assert init[i] == ps[i];
      LastWithKeyExists(init, k, i);
      var j :| IsLastWithKey(init, j) && init[j].0 == k;
      assert ps[j] == init[j];
      forall l | j < l < |ps| ensures ps[l].0 != ps[j].0 {
        if l < n {
          assert ps[l] == init[l];
        }
      }
      assert IsLastWithKey(ps, j);
    }
  }

  /** Pairs appended with other keys leave key `k` as it was: present or absent, with the same value. */
  lemma {:induction false} CollectAppendOther<V>(ps: seq<(string, V)>, qs: seq<(string, V)>, k: string)
    requires forall i :: 0 <= i < |qs| ==> qs[i].0 != k
    ensures k in Collect(ps + qs) <==> k in Collect(ps)
    ensures k in Collect(ps) ==> Collect(ps + qs)[k] == Collect(ps)[k]
  {
    if qs == [] {
      assert ps + qs == ps;
    } else {
      var init := qs[..|qs| - 1];
      assert (ps + qs)[..|ps + qs| - 1] == ps + init;
      assert (ps + qs)[|ps + qs| - 1] == qs[|qs| - 1];
      CollectAppendOther(ps, init, k);
    }
  }

  /**
   * The keys of `m` in the order a `HashMap` hands them out: some fixed order
   * the program does not choose, each key exactly once.
   */
  ghost function IterationOrder<V>(m: map<string, V>): (ks: seq<string>)
    ensures forall k :: k in m <==> k in ks
    ensures forall i, j :: 0 <= i < j < |ks| ==> ks[i] != ks[j]
    decreases |m.Keys|
  {
    if m.Keys == {} then []
    else
      var k :| k in m.Keys;
      var rest := map k' | k' in m.Keys - {k} :: m[k'];
      assert rest.Keys == m.Keys - {k};
      assert |rest.Keys| == |m.Keys| - 1;
      [k] + IterationOrder(rest)
  }

  /** Pairs listed with distinct keys collect back into exactly the map they came from. */
  lemma {:induction false} CollectDistinct<V>(ps: seq<(string, V)>, m: map<string, V>)
    requires forall i, j :: 0 <= i < j < |ps| ==> ps[i].0 != ps[j].0
    requires forall i :: 0 <= i < |ps| ==> ps[i].0 in m && m[ps[i].0] == ps[i].1
    requires forall k :: k in m ==> exists i :: 0 <= i < |ps| && ps[i].0 == k
    ensures Collect(ps) == m
  {
    forall k | k in m ensures k in Collect(ps) && Collect(ps)[k] == m[k] {
      var i :| 0 <= i < |ps| && ps[i].0 == k;
      assert IsLastWithKey(ps, i);
      CollectLastWins(ps, i);
    }
    forall k | k in Collect(ps) ensures k in m {
      CollectOnlyKeys(ps, k);
    }
  }

  /** Pairs with distinct keys collect into a map holding exactly their keys, each with its pair's value. */
  lemma CollectDistinctKeys<V>(ps: seq<(string, V)>)
    requires forall i, j :: 0 <= i < j < |ps| ==> ps[i].0 != ps[j].0
    ensures forall k :: k in Collect(ps) <==> exists i :: 0 <= i < |ps| && ps[i].0 == k
    ensures forall i :: 0 <= i < |ps| ==> Collect(ps)[ps[i].0] == ps[i].1
  {
    CollectHasKeys(ps);
    forall k | k in Collect(ps) ensures exists i :: 0 <= i < |ps| && ps[i].0 == k {
      CollectOnlyKeys(ps, k);
    }
    forall i | 0 <= i < |ps| ensures Collect(ps)[ps[i].0] == ps[i].1 {
      assert IsLastWithKey(ps, i);
      CollectLastWins(ps, i);
    }
  }

  /** The entries of a map, listed in its iteration order. */
  ghost function Entries<V>(m: map<string, V>): (ps: seq<(string, V)>)
    ensures |ps| == |IterationOrder(m)|
    ensures forall i :: 0 <= i < |ps| ==> ps[i] == (IterationOrder(m)[i], m[IterationOrder(m)[i]])
  {
    var keys := IterationOrder(m);
    seq(|keys|, i requires 0 <= i < |keys| => (keys[i], m[keys[i]]))
  }

  /** A map's entries, in iteration order, collect back into the map. */
  lemma CollectEntries<V>(m: map<string, V>)
    ensures Collect(Entries(m)) == m
  {
    var ps, keys := Entries(m), IterationOrder(m);
    forall k | k in m ensures exists i :: 0 <= i < |ps| && ps[i].0 == k {
      var i :| 0 <= i < |keys| && keys[i] == k;
      assert ps[i].0 == k;
    }
    CollectDistinct(ps, m);
  }
}
