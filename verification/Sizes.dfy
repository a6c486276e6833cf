/** How large sets and maps become. */
module Sizes {

  lemma {:induction false} SmallerMap<V>(small: map<string, V>, big: map<string, V>)
    requires small.Keys <= big.Keys
    ensures |small| <= |big|
  {
    SmallerSet(small.Keys, big.Keys);
  }

  lemma {:induction false} SmallerSet(small: set<string>, big: set<string>)
    requires small <= big
    ensures |small| <= |big|
  {
    if small != {} {
      var k :| k in small;
      SmallerSet(small - {k}, big - {k});
    }
  }

  lemma InsertSize<V>(table: map<string, V>, key: string, value: V)
    ensures |table[key := value]| == |table| + if key in table then 0 else 1
  {
    assert table[key := value].Keys == table.Keys + {key};
  }

  lemma RemoveSize<V>(table: map<string, V>, key: string)
    ensures |table - {key}| == |table| - if key in table then 1 else 0
  {
    assert (table - {key}).Keys == table.Keys - {key};
  }
}
