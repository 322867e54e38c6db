/**
 * Python's built-in `dict` as the game server uses it: a finite map that
 * remembers the order in which its keys were first inserted. Overwriting an
 * existing key keeps its position; deleting a key closes the gap and leaves
 * every other key in its relative order.
 */
module OrderedMaps {
  import opened Wrappers

  /** No element of `s` occurs twice. */
  ghost predicate Distinct<K>(s: seq<K>) {
    forall i, j :: 0 <= i < j < |s| ==> s[i] != s[j]
  }

  /** The position of `x` in `s`. */
  function IndexOf<K(==,!new)>(s: seq<K>, x: K): (i: nat)
    requires x in s
    ensures i < |s| && s[i] == x
    ensures forall j :: 0 <= j < i ==> s[j] != x
  {
    if s[0] == x then 0 else 1 + IndexOf(s[1..], x)
  }

  /** `s` with every occurrence of `x` deleted; the other elements keep their order. */
  function Without<K(==,!new)>(s: seq<K>, x: K): (r: seq<K>)
    ensures forall y :: y in r <==> y in s && y != x
    ensures Distinct(s) ==> Distinct(r)
    ensures x !in s ==> r == s
    ensures |r| <= |s|
  {
    if s == [] then []
    else if s[0] == x then Without(s[1..], x)
    else
      var rest := Without(s[1..], x);
      assert Distinct(s) ==> Distinct(s[1..]) && s[0] !in rest;
      [s[0]] + rest
  }

  /** The first element of a sequence without repetitions does not recur in its tail. */
  lemma HeadNotInTail<K>(s: seq<K>)
    requires Distinct(s) && |s| > 0
    ensures s[0] !in s[1..] && Distinct(s[1..])
  {
  }

  /** Deleting the element at position `k` of a sequence without repetitions
      is cutting that one position out. */
  lemma {:induction false} WithoutAt<K(!new)>(s: seq<K>, k: nat)
    requires Distinct(s) && k < |s|
    ensures Without(s, s[k]) == s[..k] + s[k + 1..]
  {
    HeadNotInTail(s);
    if k != 0 {
      var t := s[1..];
      assert t[k - 1] == s[k];
      assert Without(s, s[k]) == [s[0]] + Without(t, s[k]) by {
        assert s[0] != s[k];
      }
      WithoutAt(t, k - 1);
      assert s[..k] == [s[0]] + t[..k - 1];
      assert s[k + 1..] == t[k..];
    }
  }

  /** An insertion-ordered dictionary: `keys` in first-insertion order, `table` the entries. */
  datatype OMap<K(==,!new), V> = OMap(keys: seq<K>, table: map<K, V>) {

    /** The key sequence lists each key of the table exactly once. */
    ghost predicate Valid() {
      Distinct(keys) && forall k :: k in table <==> k in keys
    }

    /** `k in d` */
    predicate Contains(k: K) {
      k in table
    }

    /** `d.get(k)`: the entry for `k`, or `None` exactly when `k` is absent. */
    function Get(k: K): (r: Option<V>)
      ensures r.Some? <==> Contains(k)
      ensures r.Some? ==> r.value == table[k]
    {
      if k in table then Some(table[k]) else None
    }

    /** `d[k] = v`: a new key is appended at the end, an existing key is
        overwritten in place. */
    function Put(k: K, v: V): (r: OMap<K, V>)
      requires Valid()
      ensures r.Valid()
      ensures r.Get(k) == Some(v)
      ensures forall j :: j != k ==> r.Get(j) == Get(j)
      ensures |r.keys| == if Contains(k) then |keys| else |keys| + 1
      ensures forall i :: 0 <= i < |keys| ==> r.keys[i] == keys[i]
      ensures !Contains(k) ==> r.keys[|keys|] == k
    {
      if k in table then OMap(keys, table[k := v])
      else
        var r := OMap(keys + [k], table[k := v]);
        assert forall i :: 0 <= i < |keys| ==> r.keys[i] != k;
        r
    }

    /** `d.pop(k, None)` for its effect on `d`: deletes `k` if present and
        leaves every other key in its place relative to the rest. */
    function Remove(k: K): (r: OMap<K, V>)
      requires Valid()
      ensures r.Valid()
      ensures !r.Contains(k)
      ensures forall j :: j != k ==> r.Get(j) == Get(j)
      ensures forall i :: 0 <= i < |keys| && keys[i] == k ==> r.keys == keys[..i] + keys[i + 1..]
      ensures !Contains(k) ==> r == this
    {
      if k in table then
        WithoutAt(keys, IndexOf(keys, k));
        OMap(Without(keys, k), table - {k})
      else
        this
    }
  }

  /** `{}` */
  function Empty<K(==,!new), V>(): (d: OMap<K, V>)
    ensures d.Valid() && d.keys == []
    ensures forall k :: !d.Contains(k)
  {
    OMap([], map[])
  }

  /** `k in d` holds of a valid dictionary exactly when `k` is in its key order. */
  lemma ContainsIffListed<K(!new), V>(d: OMap<K, V>, k: K)
    requires d.Valid()
    ensures d.Contains(k) <==> k in d.keys
  {
  }

  /** Assigning the same value to the same key twice is the same as once. */
  lemma PutIdempotent<K(!new), V>(d: OMap<K, V>, k: K, v: V)
    requires d.Valid()
    ensures d.Put(k, v).Put(k, v) == d.Put(k, v)
  {
  }

  /** Re-assigning an existing key leaves the key order as it was. */
  lemma PutExistingKeepsOrder<K(!new), V>(d: OMap<K, V>, k: K, v: V)
    requires d.Valid() && d.Contains(k)
    ensures d.Put(k, v).keys == d.keys
  {
  }

  /** Popping a key that was just inserted as new restores the dictionary. */
  lemma RemoveAfterPutNew<K(!new), V>(d: OMap<K, V>, k: K, v: V)
    requires d.Valid() && !d.Contains(k)
    ensures d.Put(k, v).Remove(k) == d
  {
  }
}
