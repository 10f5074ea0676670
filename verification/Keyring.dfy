/** Keyrings (src/key/keyring.rs): the key that writes, and those kept to read what was
    written before, each found by its ID. */
module Keyrings {
  import opened Bytes
  import opened Wrappers

  /** An encryption or blind-index key: its generation ID and root material. */
  datatype Key = Key(id: Id, material: Bytes)

  /** Key IDs compare as 16-byte arrays do, which is as their big-endian value. */
  function Rank(id: Id): nat {
    FromBigEndian(id)
  }

  lemma RankInjective(a: Id, b: Id)
    requires Rank(a) == Rank(b)
    ensures a == b
  {
    FromBigEndianRoundTrip(a);
    FromBigEndianRoundTrip(b);
  }

  /** The current key, and every key in the ascending ID order of a `BTreeMap`. */
  datatype Ring = Ring(current: Key, keys: seq<Key>) {
    ghost predicate Valid() {
      && current in keys
      && Ascending(keys)
    }

    /** Looks any key of the ring up; an unknown ID finds none. */
    function Get(id: Id): Option<Key> {
      Find(keys, id)
    }

    /** The current key first, then every previous key in ID order. */
    function Readable(): seq<Key> {
      [current] + Others(keys, current.id)
    }
  }

  /** The ring a reader is left with once every previous key is retired. */
  function CurrentOnly(ring: Ring): (r: Ring)
    ensures r.Valid() && r.current == ring.current && |r.keys| == 1
  {
    Ring(ring.current, [ring.current])
  }

  ghost predicate Ascending(keys: seq<Key>) {
    forall i, j :: 0 <= i < j < |keys| ==> Rank(keys[i].id) < Rank(keys[j].id)
  }

  function Find(keys: seq<Key>, id: Id): Option<Key> {
    if keys == [] then None
    else if keys[0].id == id then Some(keys[0])
    else Find(keys[1..], id)
  }

  function Others(keys: seq<Key>, id: Id): seq<Key> {
    if keys == [] then []
    else (if keys[0].id != id then [keys[0]] else []) + Others(keys[1..], id)
  }

  lemma {:induction false} FindExact(keys: seq<Key>, id: Id, key: Key)
    requires Ascending(keys)
    ensures Find(keys, id) == Some(key) <==> key in keys && key.id == id
  {
    if keys != [] {
      assert Ascending(keys[1..]);
      FindExact(keys[1..], id, key);
      assert key in keys <==> key == keys[0] || key in keys[1..];
      if keys[0].id == id && key in keys[1..] {
        assert key.id != id;
      }
    }
  }

  /** A lookup finds exactly the key of that ID the ring holds. */
  lemma GetExact(ring: Ring, id: Id, key: Key)
    requires ring.Valid()
    ensures ring.Get(id) == Some(key) <==> key in ring.keys && key.id == id
  {
    FindExact(ring.keys, id, key);
  }

  lemma {:induction false} OthersExact(keys: seq<Key>, id: Id)
    ensures forall key :: key in Others(keys, id) <==> key in keys && key.id != id
  {
    if keys != [] {
      OthersExact(keys[1..], id);
      forall key
        ensures key in Others(keys, id) <==> key in keys && key.id != id
      {
        assert key in keys <==> key == keys[0] || key in keys[1..];
      }
    }
  }

  lemma {:induction false} OthersDistinct(keys: seq<Key>, id: Id)
    requires Ascending(keys)
    ensures Ascending(Others(keys, id))
  {
    if keys != [] {
      assert Ascending(keys[1..]);
      OthersDistinct(keys[1..], id);
      var others := Others(keys[1..], id);
      forall j | 0 <= j < |others|
        ensures Rank(keys[0].id) < Rank(others[j].id)
      {
        OthersExact(keys[1..], id);
        assert others[j] in others && others[j] in keys[1..];
      }
    }
  }

  /** The readable keys begin with the current one and go through every other key of the
      ring in ID order; none is repeated, none is missing, and no other key is among
      them. A lookup that probes each misses no stored generation. */
  lemma ReadableIsComplete(ring: Ring)
    requires ring.Valid()
    ensures ring.Readable()[0] == ring.current
    ensures forall key :: key in ring.Readable() <==> key in ring.keys
    ensures DistinctIds(ring.Readable()) && Ascending(ring.Readable()[1..])
  {
    OthersDistinct(ring.keys, ring.current.id);
    assert ring.Readable()[1..] == Others(ring.keys, ring.current.id);
    var others := Others(ring.keys, ring.current.id);
    forall i | 0 <= i < |others|
      ensures others[i].id != ring.current.id
    {
      OthersExact(ring.keys, ring.current.id);
      assert others[i] in others;
    }
    OthersExact(ring.keys, ring.current.id);
    assert forall key :: key in ring.Readable() <==> key == ring.current || key in Others(ring.keys, ring.current.id);
    forall key | key in ring.keys && key.id == ring.current.id
      ensures key == ring.current
    {
      GetExact(ring, key.id, key);
      GetExact(ring, key.id, ring.current);
    }
  }

  // ----- Building a ring -----

  ghost predicate DistinctIds(keys: seq<Key>) {
    forall i, j :: 0 <= i < j < |keys| ==> keys[i].id != keys[j].id
  }

  /** The `i`th previous key is the first to repeat an ID. */
  ghost predicate FirstRepeated(current: Key, previous: seq<Key>, i: int) {
    && 0 <= i < |previous|
    && DistinctIds([current] + previous[..i])
    && exists key :: key in [current] + previous[..i] && key.id == previous[i].id
  }

  /** Where `id` is, or would be inserted, in ascending keys. */
  method Position(keys: seq<Key>, id: Id) returns (at: nat)
    requires Ascending(keys)
    ensures at <= |keys|
    ensures forall i :: 0 <= i < at ==> Rank(keys[i].id) < Rank(id)
    ensures forall i :: at <= i < |keys| ==> Rank(keys[i].id) >= Rank(id)
  {
    at := 0;
    while at < |keys| && Rank(keys[at].id) < Rank(id)
      invariant at <= |keys|
      invariant forall i :: 0 <= i < at ==> Rank(keys[i].id) < Rank(id)
    {
      at := at + 1;
    }
  }

  /** Inserts a key in order, unless its ID is taken. */
  method Insert(keys: seq<Key>, key: Key) returns (inserted: Option<seq<Key>>)
    requires Ascending(keys)
    ensures inserted.None? <==> exists k :: k in keys && k.id == key.id
    ensures inserted.Some? ==> Ascending(inserted.value)
    ensures inserted.Some? ==> forall k :: k in inserted.value <==> k in keys || k == key
  {
    var at := Position(keys, key.id);
    if at < |keys| && keys[at].id == key.id {
      assert keys[at] in keys;
      return None;
    }
    if at < |keys| && Rank(keys[at].id) == Rank(key.id) {
      RankInjective(keys[at].id, key.id);
    }
    InsertedBetween(keys, at, key);
    return Some(keys[..at] + [key] + keys[at..]);
  }

  lemma InsertedBetween(keys: seq<Key>, at: nat, key: Key)
    requires Ascending(keys) && at <= |keys|
    requires forall i :: 0 <= i < at ==> Rank(keys[i].id) < Rank(key.id)
    requires forall i :: at <= i < |keys| ==> Rank(key.id) < Rank(keys[i].id)
    ensures Ascending(keys[..at] + [key] + keys[at..])
    ensures forall k :: k in keys[..at] + [key] + keys[at..] <==> k in keys || k == key
    ensures forall k :: k in keys ==> k.id != key.id
  {
    assert keys == keys[..at] + keys[at..];
  }

  /** Inserts each key in turn and stops at the first repeated ID. */
  method NewRing(current: Key, previous: seq<Key>, duplicate: Id -> Error) returns (r: Result<Ring>)
    ensures r.Ok? <==> DistinctIds([current] + previous)
    ensures r.Ok? ==> r.value.Valid() && r.value.current == current
    ensures r.Ok? ==> forall key :: key in r.value.keys <==> key in [current] + previous
    ensures r.Err? ==> exists i :: FirstRepeated(current, previous, i) && r.error == duplicate(previous[i].id)
  {
    var keys := [current];
    var i := 0;
    while i < |previous|
      invariant 0 <= i <= |previous|
      invariant Ascending(keys)
      invariant forall key :: key in keys <==> key in [current] + previous[..i]
      invariant DistinctIds([current] + previous[..i])
    {
      var inserted := Insert(keys, previous[i]);
      ghost var seen := [current] + previous[..i];
      assert [current] + previous[..i + 1] == seen + [previous[i]];
      if inserted.None? {
        assert FirstRepeated(current, previous, i);
        RepeatedIsNotDistinct(current, previous, i);
        return Err(duplicate(previous[i].id));
      }
      assert forall p :: 0 <= p < |seen| ==> seen[p] in keys;
      keys := inserted.value;
      i := i + 1;
    }
    assert previous[..i] == previous;
    assert current in [current] + previous;
    return Ok(Ring(current, keys));
  }

  lemma RepeatedIsNotDistinct(current: Key, previous: seq<Key>, i: int)
    requires FirstRepeated(current, previous, i)
    ensures !DistinctIds([current] + previous)
  {
    var seen, all := [current] + previous[..i], [current] + previous;
    var key :| key in seen && key.id == previous[i].id;
    var p :| 0 <= p < |seen| && seen[p] == key;
    assert all[p].id == all[i + 1].id;
  }
}
