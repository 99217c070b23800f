/** `LruPolicy`: keys from most to least recently used, with a lookup beside the list. */
module Lru {
  import opened Arith

  ghost predicate NoRepeats<K>(list: seq<K>) {
    forall i, j :: 0 <= i < j < |list| ==> list[i] != list[j]
  }

  /** The list without a key. */
  function Without<K(==)>(list: seq<K>, key: K): (r: seq<K>)
    ensures |r| <= |list|
  {
    if list == [] then []
    else if list[0] == key then list[1..]
    else [list[0]] + Without(list[1..], key)
  }

  /** The list with a key at the front, moved there if it was listed. */
  function Fronted<K(==)>(list: seq<K>, key: K): seq<K> {
    [key] + Without(list, key)
  }

  lemma {:induction false} WithoutMember<K>(list: seq<K>, key: K, k: K)
    requires NoRepeats(list)
    ensures k in Without(list, key) <==> k in list && k != key
  {
    if list != [] {
      assert list[0] !in list[1..];
      assert k in list <==> k == list[0] || k in list[1..];
      WithoutMember(list[1..], key, k);
    }
  }

  lemma OneMore<K>(k: K, list: seq<K>)
    requires NoRepeats(list) && k !in list
    ensures NoRepeats([k] + list)
  {
  }

  lemma {:induction false} WithoutNoRepeats<K>(list: seq<K>, key: K)
    requires NoRepeats(list)
    ensures NoRepeats(Without(list, key))
  {
    if list != [] && list[0] != key {
      assert list[0] !in list[1..];
      WithoutNoRepeats(list[1..], key);
      WithoutMember(list[1..], key, list[0]);
      OneMore(list[0], Without(list[1..], key));
    }
  }

  lemma {:induction false} WithoutAbsent<K>(list: seq<K>, key: K)
    requires key !in list
    ensures Without(list, key) == list
  {
    if list != [] {
      WithoutAbsent(list[1..], key);
    }
  }

  /** Without a key, the rest stays, once each. */
  lemma WithoutKeepsRest<K>(list: seq<K>, key: K)
    requires NoRepeats(list)
    ensures NoRepeats(Without(list, key)) && key !in Without(list, key)
    ensures forall k :: k in Without(list, key) <==> k in list && k != key
    ensures key !in list ==> Without(list, key) == list
  {
    WithoutNoRepeats(list, key);
    forall k ensures k in Without(list, key) <==> k in list && k != key {
      WithoutMember(list, key, k);
    }
    if key !in list {
      WithoutAbsent(list, key);
    }
  }

  /** Fronting a key keeps the others and their order, and lists the key once, first. */
  lemma FrontedNoRepeats<K>(list: seq<K>, key: K)
    requires NoRepeats(list)
    ensures NoRepeats(Fronted(list, key)) && Fronted(list, key)[0] == key
    ensures forall k :: k in Fronted(list, key) <==> k in list || k == key
  {
    WithoutKeepsRest(list, key);
    OneMore(key, Without(list, key));
  }

  // ---------------------------------------------------------------- the order of the list

  /** Keys nearer the front have the greater value. */
  ghost predicate Descending<K>(list: seq<K>, use: K -> int) {
    forall i, j :: 0 <= i < j < |list| ==> use(list[i]) > use(list[j])
  }

  lemma {:induction false} WithoutDescending<K>(list: seq<K>, key: K, use: K -> int)
    requires Descending(list, use)
    ensures Descending(Without(list, key), use)
    ensures forall k :: k in Without(list, key) ==> k in list
  {
    if list != [] {
      var rest := Without(list[1..], key);
      WithoutDescending(list[1..], key, use);
      forall j | 0 <= j < |rest| ensures use(list[0]) > use(rest[j]) {
        assert rest[j] in list[1..];
      }
    }
  }

  /** Fronting a key keeps the order, when its value becomes the greatest and no other changes. */
  lemma FrontedDescending<K>(list: seq<K>, key: K, before: K -> int, use: K -> int)
    requires NoRepeats(list) && Descending(list, before)
    requires forall k :: k in list && k != key ==> use(k) == before(k) < use(key)
    ensures Descending(Fronted(list, key), use)
  {
    var rest := Without(list, key);
    WithoutDescending(list, key, before);
    WithoutKeepsRest(list, key);
    forall i, j | 0 <= i < j < |rest| ensures use(rest[i]) > use(rest[j]) {
      assert rest[i] in rest && rest[j] in rest;
    }
    forall j | 0 <= j < |rest| ensures use(key) > use(rest[j]) {
      assert rest[j] in rest;
    }
  }

  /** The last `n` of the list, from its end. */
  function Victims<K>(list: seq<K>, n: nat): (v: seq<K>)
    requires n <= |list|
    ensures |v| == n
    ensures forall i :: 0 <= i < n ==> v[i] == list[|list| - 1 - i]
  {
    seq(n, i requires 0 <= i < n => list[|list| - 1 - i])
  }

  class LruPolicy<K(==, !new)> {
    var list: seq<K>
    var map_: set<K>

    /** No key is listed twice, and the lookup holds exactly the listed keys. */
    ghost predicate Valid()
      reads this
    {
      NoRepeats(list) && forall k :: k in map_ <==> k in list
    }

    constructor ()
      ensures Valid() && list == []
    {
      list, map_ := [], {};
    }

    method NotifyInsert(key: K)
      requires Valid()
      modifies this
      ensures Valid() && list == Fronted(old(list), key)
    {
      WithoutKeepsRest(list, key);
      FrontedNoRepeats(list, key);
      if key in map_ {
        list := Fronted(list, key);
        return;
      }
      list := [key] + list;
      map_ := map_ + {key};
    }

    method NotifyAccess(key: K)
      requires Valid()
      modifies this
      ensures Valid() && list == if key in old(list) then Fronted(old(list), key) else old(list)
    {
      WithoutKeepsRest(list, key);
      FrontedNoRepeats(list, key);
      if key in map_ {
        list := Fronted(list, key);
      }
    }

    /** Takes up to `count` keys off the end of the list. */
    method FindVictims(count: nat) returns (victims: seq<K>)
      requires Valid()
      modifies this
      ensures Valid()
      ensures victims == Victims(old(list), Min(count, |old(list)|))
      ensures list == old(list)[..|old(list)| - |victims|]
    {
      victims := [];
      var i := 0;
      while i < count && list != []
        invariant Valid() && i == |victims| <= Min(count, |old(list)|)
        invariant list == old(list)[..|old(list)| - i]
        invariant victims == Victims(old(list), i)
        decreases |list|
      {
        var key := list[|list| - 1];
        list := list[..|list| - 1];
        map_ := map_ - {key};
        victims := victims + [key];
        i := i + 1;
      }
    }

    method Remove(key: K)
      requires Valid()
      modifies this
      ensures Valid() && list == Without(old(list), key)
    {
      WithoutKeepsRest(list, key);
      if key in map_ {
        list := Without(list, key);
        map_ := map_ - {key};
      }
    }

    method Clear()
      modifies this
      ensures Valid() && list == []
    {
      list, map_ := [], {};
    }
  }
}
