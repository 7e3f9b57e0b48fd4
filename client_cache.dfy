/** The browser-side cache of the portfolio: values kept in the page's local
    storage under "portfolio_" + key, each stamped with the instant it was
    written and valid for a duration that depends on the key. The storage is
    a map from storage keys to what they hold; the clock is the `now`
    parameter. */
module ClientCache {
  import opened Wrappers

  const StoragePrefix := "portfolio_"

  const TenMinutes: nat := 10 * 60 * 1000
  const OneDay: nat := 24 * 60 * 60 * 1000
  const OneHour: nat := 60 * 60 * 1000

  /** The per-key validity table. */
  const Durations: map<string, nat> := map[
    "discord_data" := TenMinutes,
    "github_data" := TenMinutes,
    "github_projects" := OneDay,
    "senscritique_data" := OneHour
  ]

  /** Keys `clearAll` removes; `github_projects` is not among them. */
  const ClearedKeys: seq<string> := ["discord_data", "github_data", "senscritique_data"]

  function StorageKey(key: string): (sk: string)
    ensures |sk| == |StoragePrefix| + |key| && sk[|StoragePrefix|..] == key
  {
    StoragePrefix + key
  }

  /** Two cache keys never share a storage slot. */
  lemma StorageKeyInjective(k1: string, k2: string)
    requires StorageKey(k1) == StorageKey(k2)
    ensures k1 == k2
  {
    assert k1 == StorageKey(k1)[|StoragePrefix|..];
  }

  /** The validity of `key`: its entry in the table, 600000 ms when it has
      none (a table entry of 0 would fall back too, as `||` does). */
  function Duration(key: string): (d: nat)
    ensures d > 0
    ensures key in Durations ==> d == Durations[key]
    ensures key !in Durations ==> d == TenMinutes
  {
    if key in Durations && Durations[key] != 0 then Durations[key] else TenMinutes
  }

  /** What `JSON.parse` makes of a stored text: a record with a timestamp
      (absent or not a number: `None`) and a value. */
  datatype Entry<V> = Entry(timestamp: Option<int>, value: V)

  /** A storage slot: text that does not parse into a record, or a record. */
  datatype Slot<V> = Unreadable | Stored(entry: Entry<V>)

  /** The entry is still valid at `now` for `key`: its timestamp is a
      non-zero number (zero is falsy) and less than the key's duration ago. */
  predicate Fresh<V>(e: Entry<V>, key: string, now: int)
  {
    e.timestamp.Some? && e.timestamp.value != 0 && now - e.timestamp.value < Duration(key)
  }

  /** What `get(key)` returns at `now`. */
  function Lookup<V>(store: map<string, Slot<V>>, key: string, now: int): (r: Option<V>)
    ensures r.Some? <==> StorageKey(key) in store && store[StorageKey(key)].Stored?
                         && Fresh(store[StorageKey(key)].entry, key, now)
    ensures r.Some? ==> r.value == store[StorageKey(key)].entry.value
    ensures StorageKey(key) !in store ==> r.None?
  {
    var sk := StorageKey(key);
    if sk in store && store[sk].Stored? && Fresh(store[sk].entry, key, now) then Some(store[sk].entry.value)
    else None
  }

  /** The storage after `get(key)` at `now`: a readable entry that is not
      fresh is removed; everything else stays. */
  function AfterGet<V>(store: map<string, Slot<V>>, key: string, now: int): (s: map<string, Slot<V>>)
    ensures forall sk :: sk in store && sk != StorageKey(key) ==> sk in s && s[sk] == store[sk]
    ensures forall sk :: sk in s ==> sk in store && s[sk] == store[sk]
    ensures StorageKey(key) in s <==> StorageKey(key) in store && (store[StorageKey(key)].Stored? ==> Fresh(store[StorageKey(key)].entry, key, now))
  {
    var sk := StorageKey(key);
    if sk in store && store[sk].Stored? && !Fresh(store[sk].entry, key, now) then store - {sk} else store
  }

  /** The storage after a successful `set(key, value)` at `now`. */
  function Put<V>(store: map<string, Slot<V>>, key: string, value: V, now: int): (s: map<string, Slot<V>>)
    ensures StorageKey(key) in s && s[StorageKey(key)] == Stored(Entry(Some(now), value))
    ensures forall sk :: sk in s && sk != StorageKey(key) <==> sk in store && sk != StorageKey(key)
    ensures forall sk :: sk in store && sk != StorageKey(key) ==> s[sk] == store[sk]
  {
    store[StorageKey(key) := Stored(Entry(Some(now), value))]
  }

  /** The storage with the slots of `keys` removed, one key after the other. */
  function RemoveAll<V>(store: map<string, Slot<V>>, keys: seq<string>): (s: map<string, Slot<V>>)
    ensures forall sk :: sk in s ==> sk in store && s[sk] == store[sk]
  {
    if keys == [] then store else RemoveAll(store, keys[..|keys| - 1]) - {StorageKey(keys[|keys| - 1])}
  }

  /** The storage after `clearAll()`. */
  function Cleared<V>(store: map<string, Slot<V>>): map<string, Slot<V>>
  {
    RemoveAll(store, ClearedKeys)
  }

  /** A slot survives the removal of `keys` exactly when it is not one of
      their storage slots. */
  lemma {:induction false} RemoveAllExactly<V>(store: map<string, Slot<V>>, keys: seq<string>, sk: string)
    ensures sk in RemoveAll(store, keys) <==> sk in store && forall k :: k in keys ==> StorageKey(k) != sk
  {
    if keys != [] {
      var front := keys[..|keys| - 1];
      RemoveAllExactly(store, front, sk);
      assert keys == front + [keys[|keys| - 1]];
      assert forall k :: k in keys <==> k in front || k == keys[|keys| - 1];
    }
  }

  /** After `clearAll()`, no cleared key is found, whatever the time. */
  lemma ClearedKeysGone<V>(store: map<string, Slot<V>>, key: string, now: int)
    requires key in ClearedKeys
    ensures Lookup(Cleared(store), key, now).None?
  {
    RemoveAllExactly(store, ClearedKeys, StorageKey(key));
  }

  /** `clearAll()` leaves the project list, and any slot not owned by a
      cleared key, as it was. */
  lemma ClearKeepsOthers<V>(store: map<string, Slot<V>>, key: string, now: int)
    requires key !in ClearedKeys
    ensures Lookup(Cleared(store), key, now) == Lookup(store, key, now)
  {
    var sk := StorageKey(key);
    RemoveAllExactly(store, ClearedKeys, sk);
    forall k | k in ClearedKeys
      ensures StorageKey(k) != sk
    {
      if StorageKey(k) == sk {
        StorageKeyInjective(k, key);
      }
    }
  }

  /** The project list is kept by `clearAll()`. */
  lemma ClearKeepsProjects<V>(store: map<string, Slot<V>>, now: int)
    ensures Lookup(Cleared(store), "github_projects", now) == Lookup(store, "github_projects", now)
  {
    assert ClearedKeys[0] == "discord_data" && ClearedKeys[1] == "github_data" && ClearedKeys[2] == "senscritique_data";
    assert "github_projects" !in ClearedKeys;
    ClearKeepsOthers(store, "github_projects", now);
  }

  /** A value written at a non-zero instant is read back at that instant;
      a zero timestamp is falsy, so what is written at instant 0 is never
      read back. */
  lemma GetAfterSet<V>(store: map<string, Slot<V>>, key: string, value: V, now: int)
    ensures now != 0 ==> Lookup(Put(store, key, value, now), key, now) == Some(value)
    ensures now == 0 ==> Lookup(Put(store, key, value, now), key, now).None?
  {
  }

  /** A written value is read back exactly during its key's duration. */
  lemma {:induction false} SetValidFor<V>(store: map<string, Slot<V>>, key: string, value: V, at: int, now: int)
    requires at != 0
    ensures Lookup(Put(store, key, value, at), key, now) == if now - at < Duration(key) then Some(value) else None
  {
    var s := Put(store, key, value, at);
    assert s[StorageKey(key)].entry == Entry(Some(at), value);
  }

  /** Writing one key does not change what another key reads. */
  lemma SetKeepsOthers<V>(store: map<string, Slot<V>>, key: string, other: string, value: V, at: int, now: int)
    requires other != key
    ensures Lookup(Put(store, key, value, at), other, now) == Lookup(store, other, now)
  {
    if StorageKey(other) == StorageKey(key) {
      StorageKeyInjective(other, key);
    }
  }

  /** `get` answers the same when asked again at the same instant: what it
      removed was not readable anyway. */
  lemma GetIsStable<V>(store: map<string, Slot<V>>, key: string, now: int)
    ensures Lookup(AfterGet(store, key, now), key, now) == Lookup(store, key, now)
    ensures AfterGet(AfterGet(store, key, now), key, now) == AfterGet(store, key, now)
  {
  }

  /** How a `localStorage.setItem` call ends. */
  datatype WriteOutcome = Written | QuotaExceeded | OtherFailure

  class CacheManager<V> {
    /** The page's local storage, with every key it holds. */
    var store: map<string, Slot<V>>

    constructor (initial: map<string, Slot<V>>)
      ensures store == initial
    {
      store := initial;
    }

    /** `get(key)`: the value when it is fresh; an expired entry is removed
        on the way; an unreadable one is left in place. */
    method Get(key: string, now: int) returns (r: Option<V>)
      modifies this
      ensures r == Lookup(old(store), key, now)
      ensures store == AfterGet(old(store), key, now)
    {
      var sk := StorageKey(key);
      if sk !in store {
        return None;
      }
      match store[sk] {
        case Unreadable =>
          r := None;
        case Stored(e) =>
          if e.timestamp.Some? && e.timestamp.value != 0 && now - e.timestamp.value < Duration(key) {
            r := Some(e.value);
          } else {
            store := store - {sk};
            r := None;
          }
      }
    }

    /** `set(key, value)`: the write stores the value stamped `now`; a full
        storage clears the cache instead; any other failure changes
        nothing. */
    method Set(key: string, value: V, now: int, outcome: WriteOutcome)
      modifies this
      ensures outcome == Written ==> store == Put(old(store), key, value, now)
      ensures outcome == QuotaExceeded ==> store == Cleared(old(store))
      ensures outcome == OtherFailure ==> store == old(store)
    {
      match outcome {
        case Written => store := store[StorageKey(key) := Stored(Entry(Some(now), value))];
        case QuotaExceeded => ClearAll();
        case OtherFailure =>
      }
    }

    /** `clearAll()`: removes the slots of the cleared keys, one by one. */
    method ClearAll()
      modifies this
      ensures store == Cleared(old(store))
    {
      var i := 0;
      while i < |ClearedKeys|
        invariant 0 <= i <= |ClearedKeys|
        invariant store == RemoveAll(old(store), ClearedKeys[..i])
      {
        assert ClearedKeys[..i + 1][..i] == ClearedKeys[..i];
        store := store - {StorageKey(ClearedKeys[i])};
        i := i + 1;
      }
      assert ClearedKeys[..i] == ClearedKeys;
    }
  }
}
