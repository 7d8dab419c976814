/**
 Building a map from a list of keyed pairs by inserting them in order, as
 `HashMap::from_iter` and a loop of `Map::insert` do: every key of the list
 is present, and a later pair overwrites an earlier pair with the same key.
 */
module Assoc {

  import opened Bytes

  function Keys<V>(pairs: seq<(Text, V)>): set<Text> {
    set i | 0 <= i < |pairs| :: pairs[i].0
  }

  /** No pair after position `i` has the key of pair `i`. */
  predicate IsLastOfKey<V>(pairs: seq<(Text, V)>, i: nat)
    requires i < |pairs|
  {
    forall j :: i < j < |pairs| ==> pairs[j].0 != pairs[i].0
  }

  /** The pairs inserted one after the other into an empty map. */
  function LastWins<V>(pairs: seq<(Text, V)>): map<Text, V> {
    if pairs == [] then map[]
    else LastWins(pairs[..|pairs| - 1])[pairs[|pairs| - 1].0 := pairs[|pairs| - 1].1]
  }

  /** Dropping the last pair leaves the keys of the others plus its own. */
  lemma KeysOfInit<V>(pairs: seq<(Text, V)>)
    requires pairs != []
    ensures Keys(pairs) == Keys(pairs[..|pairs| - 1]) + {pairs[|pairs| - 1].0}
  {
    var init := pairs[..|pairs| - 1];
    forall k | k in Keys(pairs) ensures k in Keys(init) + {pairs[|pairs| - 1].0} {
      var i :| 0 <= i < |pairs| && pairs[i].0 == k;
      if i < |pairs| - 1 {
        assert init[i] == pairs[i];
      }
    }
    forall k | k in Keys(init) ensures k in Keys(pairs) {
      var i :| 0 <= i < |init| && init[i].0 == k;
      assert pairs[i] == init[i];
    }
  }

  /** The map has exactly the keys of the list. */
  lemma {:induction false} LastWinsKeys<V>(pairs: seq<(Text, V)>)
    ensures LastWins(pairs).Keys == Keys(pairs)
    decreases |pairs|
  {
    if pairs != [] {
      LastWinsKeys(pairs[..|pairs| - 1]);
      KeysOfInit(pairs);
    }
  }

  /**
   The map has exactly the keys of the list, and each key holds the value
   of its last pair.
   */
  lemma {:induction false} LastWinsKeepsLast<V>(pairs: seq<(Text, V)>)
    ensures LastWins(pairs).Keys == Keys(pairs)
    ensures forall i :: 0 <= i < |pairs| && IsLastOfKey(pairs, i) ==>
      LastWins(pairs)[pairs[i].0] == pairs[i].1
    decreases |pairs|
  {
    LastWinsKeys(pairs);
    if pairs != [] {
      var init := pairs[..|pairs| - 1];
      var last := pairs[|pairs| - 1];
      var r := LastWins(pairs);
      LastWinsKeepsLast(init);
      assert r == LastWins(init)[last.0 := last.1];
      forall i | 0 <= i < |pairs| && IsLastOfKey(pairs, i)
        ensures r[pairs[i].0] == pairs[i].1
      {
        if i < |pairs| - 1 {
          assert pairs[i].0 != last.0;
          assert init[i] == pairs[i];
          assert IsLastOfKey(init, i) by {
            forall j | i < j < |init| ensures init[j].0 != init[i].0 {
              assert init[j] == pairs[j];
            }
          }
        }
      }
    }
  }
}
