/**
 * Filling a Python dict from a sequence of (key, value) assignments, as a
 * dict comprehension or a loop of `d[k] = v` does: one entry per key, a
 * later assignment overwriting an earlier one.
 */
module Dicts {

  /** The dict after assigning every pair of `ps` in order. */
  function LastWins<K, V>(ps: seq<(K, V)>): (m: map<K, V>)
    ensures |ps| > 0 ==> ps[|ps| - 1].0 in m && m[ps[|ps| - 1].0] == ps[|ps| - 1].1
  {
    if ps == [] then map[]
    else LastWins(ps[..|ps| - 1])[ps[|ps| - 1].0 := ps[|ps| - 1].1]
  }

  /** The dict has an entry for exactly the keys that some pair assigns. */
  lemma {:induction false} LastWinsKeys<K, V>(ps: seq<(K, V)>, k: K)
    ensures k in LastWins(ps) <==> exists i :: 0 <= i < |ps| && ps[i].0 == k
  {
    if ps != [] {
      var init := ps[..|ps| - 1];
      LastWinsKeys(init, k);
      if k != ps[|ps| - 1].0 && k in LastWins(ps) {
        var i :| 0 <= i < |init| && init[i].0 == k;
        assert ps[i].0 == k;
      }
      if exists i :: 0 <= i < |ps| && ps[i].0 == k {
        var i :| 0 <= i < |ps| && ps[i].0 == k;
        if i < |init| {
          assert init[i].0 == k;
        }
      }
    }
  }

  /** Last write wins: a pair that no later pair overrides gives its key's value. */
  lemma {:induction false} LastWinsTakesLast<K, V>(ps: seq<(K, V)>, i: nat)
    requires i < |ps|
    requires forall j :: i < j < |ps| ==> ps[j].0 != ps[i].0
    ensures ps[i].0 in LastWins(ps) && LastWins(ps)[ps[i].0] == ps[i].1
  {
    if i < |ps| - 1 {
      var init := ps[..|ps| - 1];
      assert forall j :: i < j < |init| ==> init[j] == ps[j];
      LastWinsTakesLast(init, i);
    }
  }

  /** Every entry is the value of the last pair assigning its key. */
  lemma {:induction false} LastWinsValue<K, V>(ps: seq<(K, V)>, k: K) returns (i: nat)
    requires k in LastWins(ps)
    ensures i < |ps| && ps[i].0 == k && LastWins(ps)[k] == ps[i].1
    ensures forall j :: i < j < |ps| ==> ps[j].0 != k
  {
    LastWinsKeys(ps, k);
    if ps[|ps| - 1].0 == k {
      i := |ps| - 1;
    } else {
      var init := ps[..|ps| - 1];
      assert k in LastWins(init);
      i := LastWinsValue(init, k);
    }
  }

  /** Assigning one more pair updates the dict built from the pairs before it. */
  lemma LastWinsAppend<K, V>(ps: seq<(K, V)>, q: (K, V))
    ensures LastWins(ps + [q]) == LastWins(ps)[q.0 := q.1]
  {
    assert (ps + [q])[..|ps|] == ps;
  }
}
