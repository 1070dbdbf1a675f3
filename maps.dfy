/** Building a `BTreeMap` from a sequence of optional key/value pairs, as
    `filter_map(..).collect()` and a loop of `insert` calls do: the skipped
    entries add nothing, and a later pair for a key replaces an earlier one. */
module Maps {
  import opened Wrappers

  function Collect<K, V>(ps: seq<Option<(K, V)>>): map<K, V>
  {
    if ps == [] then map[]
    else
      var m := Collect(ps[..|ps| - 1]);
      match ps[|ps| - 1]
      case None => m
      case Some((k, v)) => m[k := v]
  }

  /** A key is in the map exactly when some pair has it. */
  lemma {:induction false} CollectKeys<K, V>(ps: seq<Option<(K, V)>>, k: K)
    ensures k in Collect(ps) <==> exists i :: 0 <= i < |ps| && ps[i].Some? && ps[i].value.0 == k
  {
    if ps != [] {
      var init := ps[..|ps| - 1];
      CollectKeys(init, k);
      assert forall i :: 0 <= i < |init| ==> init[i] == ps[i];
    }
  }

  /** The value of a key is that of the last pair with that key. */
  lemma {:induction false} CollectLastWins<K, V>(ps: seq<Option<(K, V)>>, i: nat)
    requires i < |ps| && ps[i].Some?
    requires forall j :: i < j < |ps| && ps[j].Some? ==> ps[j].value.0 != ps[i].value.0
    ensures ps[i].value.0 in Collect(ps) && Collect(ps)[ps[i].value.0] == ps[i].value.1
  {
    var init := ps[..|ps| - 1];
    if i < |ps| - 1 {
      assert init[i] == ps[i];
      assert forall j :: i < j < |init| ==> init[j] == ps[j];
      CollectLastWins(init, i);
    }
  }

  /** One step of the insertion loop. */
  lemma CollectSnoc<K, V>(ps: seq<Option<(K, V)>>, p: Option<(K, V)>)
    ensures Collect(ps + [p]) == match p case None => Collect(ps) case Some((k, v)) => Collect(ps)[k := v]
  {
    assert (ps + [p])[..|ps|] == ps;
  }
}
