/** Choosing what to drop from a full table. */
module Eviction {
  import Sizes

  /** No other key is older. */
  predicate IsOldest(ages: map<string, int>, key: string) {
    key in ages && forall k :: k in ages ==> ages[key] <= ages[k]
  }

  /**
   * The search both tables use: the first key seen, then every strictly older one. Times are positive,
   * zero standing for "none yet", and the empty key standing for "nothing found".
   */
  method FindOldest(ages: map<string, int>) returns (key: string)
    requires forall k :: k in ages ==> ages[k] > 0
    ensures if ages == map[] then key == "" else IsOldest(ages, key)
  {
    var oldest := 0;
    key := "";
    var rest := ages.Keys;
    while rest != {}
      invariant rest <= ages.Keys
      invariant rest == ages.Keys ==> oldest == 0 && key == ""
      invariant rest != ages.Keys ==> key in ages && oldest == ages[key]
      invariant rest != ages.Keys ==> forall k :: k in ages && k !in rest ==> ages[key] <= ages[k]
      decreases rest
    {
      var k :| k in rest;
      rest := rest - {k};
      if oldest == 0 || ages[k] < oldest {
        key, oldest := k, ages[k];
      }
    }
  }

  /** The key to delete: none when the search came back empty-handed, or with the empty key. */
  function Without<V>(table: map<string, V>, victim: string): map<string, V> {
    if victim == "" then table else table - {victim}
  }

  /** A family of names, one of each length. */
  function Name(n: nat): (name: string)
    ensures |name| == n
  {
    seq(n, _ => 'a')
  }

  /** A table that is not empty has an oldest key. */
  lemma {:induction false} OldestExists(ages: map<string, int>) returns (key: string)
    requires ages != map[]
    ensures IsOldest(ages, key)
    decreases |ages|
  {
    key :| key in ages;
    var rest := ages - {key};
    if rest != map[] {
      Sizes.RemoveSize(ages, key);
      var other := OldestExists(rest);
      assert forall k :: k in ages ==> k == key || k in rest;
      if ages[other] < ages[key] { key := other; }
    }
  }
}
