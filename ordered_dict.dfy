/**
  A dictionary with string keys that remembers insertion order, as the
  server's world state uses it: iterating over it visits keys in the order
  they were first inserted, assigning to a key that is already present keeps
  its place, and deleting a key takes it out of the order.
*/
module OrderedDict {

  /** No key occurs twice: the first does not recur, nor does any later one. */
  predicate Distinct(s: seq<string>)
    decreases |s|
  {
    s == [] || (s[0] !in s[1..] && Distinct(s[1..]))
  }

  /** Appending a key that is not there yet keeps the keys distinct. */
  lemma {:induction false} DistinctSnoc(s: seq<string>, k: string)
    ensures Distinct(s) && k !in s ==> Distinct(s + [k])
    decreases |s|
  {
    if s != [] && Distinct(s) && k !in s {
      DistinctSnoc(s[1..], k);
      assert (s + [k])[1..] == s[1..] + [k];
    }
  }

  /** `s` with `k` taken out, the other keys in their order. */
  function Without(s: seq<string>, k: string): (r: seq<string>)
    ensures forall x :: x in r <==> x in s && x != k
    ensures Distinct(s) ==> Distinct(r)
    ensures Distinct(s) && k in s ==> |r| == |s| - 1
    ensures k !in s ==> r == s
    ensures forall i :: 0 <= i < |s| && s[i] == k && Distinct(s) ==> r == s[..i] + s[i + 1..]
  {
    if s == [] then []
    else if s[0] == k then Without(s[1..], k)
    else
      var rest := Without(s[1..], k);
      assert ([s[0]] + rest)[1..] == rest;
      assert forall i :: 1 <= i < |s| ==> s[..i] + s[i + 1..] == [s[0]] + (s[1..][..i - 1] + s[1..][i..]);
      [s[0]] + rest
  }

  /** The keys of `s` that lie in `live`, in their order in `s`. */
  function Keep(s: seq<string>, live: set<string>): (r: seq<string>)
    ensures forall x :: x in r <==> x in s && x in live
    decreases |s|
  {
    if s == [] then []
    else if s[0] in live then [s[0]] + Keep(s[1..], live)
    else Keep(s[1..], live)
  }

  /** Deleting a key keeps, in order, exactly the keys other than it. */
  lemma {:induction false} KeepWithout(s: seq<string>, k: string, live: set<string>)
    requires forall x :: x in s ==> (x in live <==> x != k)
    ensures Keep(s, live) == Without(s, k)
    decreases |s|
  {
    if s != [] {
      KeepWithout(s[1..], k, live);
    }
  }

  /** Keeping every key changes nothing. */
  lemma {:induction false} KeepAll(s: seq<string>, live: set<string>)
    requires forall x :: x in s ==> x in live
    ensures Keep(s, live) == s
    decreases |s|
  {
    if s != [] {
      KeepAll(s[1..], live);
    }
  }

  /** Two filterings in a row are one filtering by what both keep. */
  lemma {:induction false} KeepKeep(s: seq<string>, a: set<string>, b: set<string>)
    ensures Keep(Keep(s, a), b) == Keep(s, a * b)
    decreases |s|
  {
    if s != [] {
      KeepKeep(s[1..], a, b);
      if s[0] in a {
        assert Keep(s, a)[1..] == Keep(s[1..], a);
      }
    }
  }

  /** Filtering by a set and then by a smaller one is filtering by the smaller one. */
  lemma KeepShrink(s: seq<string>, a: set<string>, b: set<string>)
    requires b <= a
    ensures Keep(Keep(s, a), b) == Keep(s, b)
  {
    KeepKeep(s, a, b);
    assert a * b == b;
  }

  datatype Dict<V> = Dict(keys: seq<string>, entries: map<string, V>) {

    /** The order lists exactly the keys that have entries, each once. */
    ghost predicate Valid() {
      Distinct(keys) && forall k :: k in entries <==> k in keys
    }

    /** The number of entries. */
    function Len(): nat {
      |entries|
    }

    /** Assignment `d[k] = v`: an existing key keeps its place, a new key goes last. */
    function Put(k: string, v: V): (r: Dict<V>)
      ensures Valid() ==> r.Valid()
      ensures r.entries == entries[k := v]
      ensures k in entries ==> r.keys == keys
      ensures k !in entries ==> r.keys == keys + [k]
    {
      if k in entries then Dict(keys, entries[k := v])
      else
        DistinctSnoc(keys, k);
        Dict(keys + [k], entries[k := v])
    }

    /** Deletion `del d[k]`. */
    function Delete(k: string): (r: Dict<V>)
      ensures Valid() ==> r.Valid()
      ensures r.entries == entries - {k}
      ensures r.keys == Without(keys, k)
      ensures Valid() && k in entries ==> r.Len() == Len() - 1
    {
      var r := Dict(Without(keys, k), entries - {k});
      assert r.entries.Keys == entries.Keys - {k};
      r
    }
  }

  /** The empty dictionary. */
  function Empty<V>(): (d: Dict<V>)
    ensures d.Valid() && d.Len() == 0
  {
    Dict([], map[])
  }

  /** Writing a key and then deleting it is the same as deleting it. */
  lemma DeleteAfterPut<V>(d: Dict<V>, k: string, v: V)
    requires k in d.entries
    ensures d.Put(k, v).Delete(k) == d.Delete(k)
  {
    assert d.Put(k, v).entries - {k} == d.entries - {k};
  }

  /** The order has one position per entry. */
  lemma {:induction false} LenIsKeyCount<V>(d: Dict<V>)
    requires d.Valid()
    ensures d.Len() == |d.keys|
    decreases |d.keys|
  {
    if d.keys != [] {
      var k := d.keys[0];
      var rest := Dict(d.keys[1..], d.entries - {k});
      assert d.keys == [k] + d.keys[1..];
      assert rest.Valid();
      LenIsKeyCount(rest);
      assert rest.entries.Keys == d.entries.Keys - {k};
    }
  }
}
