/** The ordering a `TreeMap<Double, V>` gives its keys: ascending. */
module Ranking {

  predicate IsLeast(m: real, keys: set<real>) {
    m in keys && forall k :: k in keys ==> m <= k
  }

  /** A non-empty key set has a key (see `Situations.HasStation` for why
      this is stated once per element type). */
  lemma HasKey(keys: set<real>)
    ensures keys != {} ==> exists k :: k in keys
  {
    if forall k :: k !in keys {
      assert keys == {};
    }
  }

  /** Every finite, non-empty set of reals has a least element. */
  lemma {:induction false} LeastExists(keys: set<real>)
    requires keys != {}
    ensures exists m :: IsLeast(m, keys)
    decreases |keys|
  {
    HasKey(keys);
    var a :| a in keys;
    var rest := keys - {a};
    assert forall k :: k in keys ==> k == a || k in rest;
    if rest == {} {
      assert IsLeast(a, keys);
    } else {
      LeastExists(rest);
      var m :| IsLeast(m, rest);
      if a < m {
        assert IsLeast(a, keys);
      } else {
        assert IsLeast(m, keys);
      }
    }
  }

  /** The first key of a non-empty TreeMap key set. */
  function Least(keys: set<real>): (m: real)
    requires keys != {}
    ensures IsLeast(m, keys)
  {
    LeastExists(keys);
    var m :| IsLeast(m, keys);
    m
  }

  /** The keys in the order a TreeMap iterates them: every key once,
      ascending (`SortedKeysAscending`). */
  function SortedKeys(keys: set<real>): (ks: seq<real>)
    ensures |ks| == |keys|
    ensures forall k :: k in ks <==> k in keys
    decreases keys
  {
    if keys == {} then []
    else
      var m := Least(keys);
      [m] + SortedKeys(keys - {m})
  }

  predicate Ascending(ks: seq<real>) {
    forall i, j :: 0 <= i < j < |ks| ==> ks[i] < ks[j]
  }

  lemma PrependAscending(m: real, rest: seq<real>)
    requires Ascending(rest) && forall j :: 0 <= j < |rest| ==> m < rest[j]
    ensures Ascending([m] + rest)
  {
    var ks := [m] + rest;
    forall i, j | 0 <= i < j < |ks|
      ensures ks[i] < ks[j]
    {
      assert ks[j] == rest[j - 1];
      if i > 0 {
        assert ks[i] == rest[i - 1];
      }
    }
  }

  /** A TreeMap hands out its keys in strictly ascending order. */
  lemma {:induction false} SortedKeysAscending(keys: set<real>)
    ensures Ascending(SortedKeys(keys))
    decreases keys
  {
    if keys != {} {
      var m := Least(keys);
      var rest := SortedKeys(keys - {m});
      SortedKeysAscending(keys - {m});
      forall j | 0 <= j < |rest|
        ensures m < rest[j]
      {
        assert rest[j] in keys - {m};
      }
      PrependAscending(m, rest);
    }
  }
}
