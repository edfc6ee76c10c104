/** The tracked local cache (OldInMemoryCacheProvider): an injected MemoryCache
    plus a side index `_keys` of the keys it has written, so that keys can be
    removed by prefix although MemoryCache cannot enumerate its keys. The store
    calls back `PostEviction` whenever it drops an entry; here the environment
    makes that call explicitly. */
module OldInMemoryCache {
  import opened Runtime
  import opened CacheCommon

  /** The fixed default expiration, in seconds. */
  const ExpirationSeconds: int := 600

  /** `ConcurrentDictionary.TryAdd`: adds the pair only when the key is absent. */
  function TryAdd(m: map<string, bool>, key: string, flag: bool): (r: map<string, bool>)
    ensures key in r && r.Keys == m.Keys + {key}
    ensures key in m ==> r == m
    ensures key !in m ==> r[key] == flag
    ensures forall k | k in m :: r[k] == m[k]
  {
    if key in m then m else m[key := flag]
  }

  /** `ConcurrentDictionary.TryRemove`: the dictionary without the key, and
      whether the key was there. */
  function TryRemove(m: map<string, bool>, key: string): (r: (map<string, bool>, bool))
    ensures r.0 == m - {key}
    ensures r.1 <==> key in m
  {
    (m - {key}, key in m)
  }

  /** `ConcurrentDictionary.TryUpdate(key, newValue, comparisonValue)`: replaces
      the flag only when the key is present with the comparison value. */
  function TryUpdate(m: map<string, bool>, key: string, newValue: bool, comparisonValue: bool): (r: map<string, bool>)
    ensures r.Keys == m.Keys
    ensures key in m && m[key] == comparisonValue ==> r[key] == newValue
    ensures !(key in m && m[key] == comparisonValue) ==> r == m
    ensures forall k | k in m && k != key :: r[k] == m[k]
  {
    if key in m && m[key] == comparisonValue then m[key := newValue] else m
  }

  /** GetMemoryCacheEntryOptions(cacheTime): the reset token, the post-eviction
      callback, and `cacheTime` as the relative absolute expiration, which
      MemoryCacheEntryOptions refuses when it is not positive. No size and no
      sliding expiration. */
  function EntryOptionsFor(cacheTime: int, token: nat): (r: Result<EntryOptions>)
    ensures r.Ok? <==> cacheTime > 0
    ensures r.Ok? ==> r.value.absolute == NonNull(cacheTime) && r.value.token == token
    ensures r.Ok? ==> r.value.evictionCallback && r.value.size.Null? && r.value.sliding.Null?
  {
    if cacheTime <= 0 then Throws(ArgumentOutOfRangeException("AbsoluteExpirationRelativeToNow"))
    else Ok(EntryOptions(Null, Null, NonNull(cacheTime), token, true))
  }

  /** Every flag of the index is `true`. */
  ghost predicate AllFlagsTrue(keys: map<string, bool>) {
    forall k | k in keys :: keys[k]
  }

  /** The keys of the index that are flagged `false`. */
  function FalseFlagged(keys: map<string, bool>): (r: set<string>)
    ensures AllFlagsTrue(keys) ==> r == {}
    ensures forall k | k in r :: k in keys && !keys[k]
  {
    set k | k in keys && !keys[k]
  }

  /** The effect of `TryRemoveKey(key)` on the index: the empty key fails
      validation; otherwise `TryRemove` drops the key, and the `TryUpdate` that
      follows a failed `TryRemove` finds the key absent and changes nothing. */
  function AfterTryRemoveKey(keys: map<string, bool>, key: string): (r: map<string, bool>)
    ensures key == "" ==> r == keys
    ensures key != "" ==> r == keys - {key}
  {
    if !IsValidKey(NonNull(key)) then keys
    else
      var (removedFrom, removed) := TryRemove(keys, key);
      if removed then removedFrom else TryUpdate(keys, key, false, true)
  }

  /** Removing one more key, when it is not the empty key, from a map that lacks a set of keys. */
  lemma RemoveOneMore<V>(m: map<string, V>, gone: set<string>, k: string, before: map<string, V>, after: map<string, V>)
    requires before == m - gone
    requires after == if k != "" then before - {k} else before
    ensures after == m - (gone + ({k} - {""}))
  {
  }

  class OldInMemoryCacheProvider {
    /** The static `_resetCacheToken`, shared by every instance of the class. */
    const tokens: TokenRegistry
    /** The injected MemoryCache: physically present entries by key. */
    var store: map<string, Entry>
    /** The side index `_keys`. */
    var keys: map<string, bool>
    /** Every key a write has ever added to the store. */
    ghost var written: set<string>

    /** The provider's state apart from the flags of the index. */
    ghost predicate Coherent()
      reads this, tokens
    {
      && tokens.Valid()
      && (forall k | k in store :: store[k].options.token < tokens.issued)
      && keys.Keys <= written
    }

    /** The invariant every public operation keeps: in addition, every flag of
        the index is `true`, and the index only lists keys that were written. */
    ghost predicate Valid()
      reads this, tokens
    {
      Coherent() && AllFlagsTrue(keys)
    }

    /** An entry is reachable while its reset token has not been cancelled. */
    predicate Live(key: string)
      reads this, tokens
    {
      key in store && !tokens.IsCancellationRequested(store[key].options.token)
    }

    constructor (tokens: TokenRegistry)
      requires tokens.Valid()
      ensures Valid()
      ensures this.tokens == tokens && store == map[] && keys == map[]
    {
      this.tokens := tokens;
      store := map[];
      keys := map[];
      written := {};
    }

    /** `Set(key, value)`: a valid pair is written with the 600-second expiration. */
    method Set(key: Nullable<string>, value: Value) returns (outcome: Outcome)
      requires Valid()
      modifies this
      ensures Valid()
      ensures !IsValidPair(key, value) ==> outcome == Completed && store == old(store) && keys == old(keys)
      ensures IsValidPair(key, value) && key.Null? ==>
        outcome == Raised(ArgumentNullException("key")) && store == old(store) && keys == old(keys)
      ensures IsValidPair(key, value) && key.NonNull? ==>
        && outcome == Completed
        && store == old(store)[key.value := Entry(value, EntryOptionsFor(ExpirationSeconds, tokens.current).value)]
        && keys == TryAdd(old(keys), key.value, true)
    {
      outcome := Completed;
      if IsValidPair(key, value) {
        outcome := SetWithExpiration(key, value, ExpirationSeconds);
      }
    }

    /** `Set(key, value, expiration)`: a valid pair is written and its key added
        to the index as `true` if it is not there yet; an existing flag is never
        overwritten. A null key (valid only with a null value) reaches MemoryCache,
        which throws. */
    method SetWithExpiration(key: Nullable<string>, value: Value, expiration: int) returns (outcome: Outcome)
      requires Valid()
      modifies this
      ensures Valid()
      ensures tokens.current == old(tokens.current)
      ensures !IsValidPair(key, value) ==> outcome == Completed && store == old(store) && keys == old(keys)
      ensures IsValidPair(key, value) && expiration <= 0 ==>
        outcome == Raised(ArgumentOutOfRangeException("AbsoluteExpirationRelativeToNow")) && store == old(store) && keys == old(keys)
      ensures IsValidPair(key, value) && expiration > 0 && key.Null? ==>
        outcome == Raised(ArgumentNullException("key")) && store == old(store) && keys == old(keys)
      ensures IsValidPair(key, value) && expiration > 0 && key.NonNull? ==>
        && outcome == Completed
        && store == old(store)[key.value := Entry(value, EntryOptionsFor(expiration, tokens.current).value)]
        && keys == TryAdd(old(keys), key.value, true)
    {
      outcome := Completed;
      if IsValidPair(key, value) {
        var entryOptions := EntryOptionsFor(expiration, tokens.current);
        if entryOptions.Throws? {
          return Raised(entryOptions.error);
        }
        if key.Null? {
          return Raised(ArgumentNullException("key"));
        }
        store := store[key.value := Entry(value, entryOptions.value)];
        keys := TryAdd(keys, key.value, true);
        written := written + {key.value};
      }
    }

    /** `Get<T>(key)`: null for an invalid key; otherwise the live value when its
        runtime type is `t`, and null for a miss, a null value or a mismatch. */
    method Get(key: Nullable<string>, t: TypeId) returns (r: Value)
      requires Valid()
      ensures HasType(r, t)
      ensures !IsValidKey(key) ==> r == Null
      ensures r.NonNull? ==> IsValidKey(key) && Live(key.value) && r == store[key.value].value
      ensures IsValidKey(key) && Live(key.value) && IsInstanceOf(store[key.value].value, t) ==> r == store[key.value].value
    {
      r := Null;
      if IsValidKey(key) {
        if Live(key.value) && IsInstanceOf(store[key.value].value, t) {
          r := store[key.value].value;
        }
      }
    }

    /** `Get<T>(key, acquire)`. An invalid key gives null without calling
        `acquire`; a live non-null value of type `t` is returned without calling
        it; otherwise `acquire` is called once and its result, null included,
        is stored with the 600-second expiration, its key added to the index,
        and returned. `acquired` is what `acquire` returns when called. */
    method GetOrAcquire(key: Nullable<string>, t: TypeId, acquired: Value) returns (r: Value, invoked: bool)
      requires Valid()
      requires HasType(acquired, t)
      modifies this
      ensures Valid()
      ensures !IsValidKey(key) ==> r == Null && !invoked && store == old(store) && keys == old(keys)
      ensures IsValidKey(key) && old(Live(key.value)) && IsInstanceOf(old(store)[key.value].value, t) ==>
        r == old(store)[key.value].value && !invoked && store == old(store) && keys == old(keys)
      ensures IsValidKey(key) && !(old(Live(key.value)) && IsInstanceOf(old(store)[key.value].value, t)) ==>
        && r == acquired && invoked
        && store == old(store)[key.value := Entry(acquired, EntryOptionsFor(ExpirationSeconds, tokens.current).value)]
        && keys == TryAdd(old(keys), key.value, true)
    {
      if !IsValidKey(key) {
        return Null, false;
      }
      if Live(key.value) && IsInstanceOf(store[key.value].value, t) {
        return store[key.value].value, false;
      }
      r, invoked := acquired, true;
      var entryOptions := EntryOptionsFor(ExpirationSeconds, tokens.current);
      store := store[key.value := Entry(r, entryOptions.value)];
      keys := TryAdd(keys, key.value, true);
      written := written + {key.value};
    }

    /** `Remove(key)`: drops the entry of a valid key. The index is only read
        (`TryGetValue`), so it keeps the key until the eviction callback runs. */
    method Remove(key: Nullable<string>)
      requires Valid()
      modifies this
      ensures Valid()
      ensures keys == old(keys)
      ensures store == if IsValidKey(key) then old(store) - {key.value} else old(store)
    {
      if IsValidKey(key) {
        store := store - {key.value};
        var _ := key.value in keys;
      }
    }

    /** `RemovePattern(pattern)`: takes a snapshot of the indexed keys that start
        with `pattern` and removes each of them; the empty key fails `Remove`'s
        validation and stays. A null pattern makes `StartsWith` throw as soon as
        one key is checked, before anything is removed. */
    method RemovePattern(pattern: Nullable<string>) returns (outcome: Outcome)
      requires Valid()
      modifies this
      ensures Valid()
      ensures keys == old(keys)
      ensures pattern.Null? && |old(keys)| > 0 ==> outcome == Raised(ArgumentNullException("value")) && store == old(store)
      ensures pattern.Null? && |old(keys)| == 0 ==> outcome == Completed && store == old(store)
      ensures pattern.NonNull? ==>
        && outcome == Completed
        && store == old(store) - (set k | k in old(keys) && k != "" && StartsWith(k, pattern.value))
    {
      if pattern.Null? {
        if |keys| > 0 {
          return Raised(ArgumentNullException("value"));
        }
        return Completed;
      }
      var matches := set k | k in keys && StartsWith(k, pattern.value);
      var todo := matches;
      while todo != {}
        invariant Valid()
        invariant todo <= matches
        invariant keys == old(keys)
        invariant store == old(store) - (matches - todo - {""})
        decreases |todo|
      {
        var k :| k in todo;
        ghost var before := store;
        Remove(NonNull(k));
        RemoveOneMore(old(store), matches - todo - {""}, k, before, store);
        assert matches - (todo - {k}) - {""} == (matches - todo - {""}) + ({k} - {""});
        todo := todo - {k};
      }
      assert matches - todo - {""} == (set x | x in old(keys) && x != "" && StartsWith(x, pattern.value)) by {
        assert todo == {};
        forall x ensures x in matches - todo - {""} <==> x in old(keys) && x != "" && StartsWith(x, pattern.value) {
          assert x in matches <==> x in keys && StartsWith(x, pattern.value);
        }
      }
      outcome := Completed;
    }

    /** `Exists(key)`: false for an invalid key; otherwise whether a live entry exists. */
    method Exists(key: Nullable<string>) returns (r: bool)
      requires Valid()
      ensures r <==> IsValidKey(key) && Live(key.value)
    {
      r := false;
      if IsValidKey(key) {
        r := Live(key.value);
      }
    }

    /** `Refresh(key, value)`: `Remove` then `Set` with the 600-second
        expiration, both only for a valid pair. */
    method Refresh(key: Nullable<string>, value: Value) returns (outcome: Outcome)
      requires Valid()
      modifies this
      ensures Valid()
      ensures tokens.current == old(tokens.current)
      ensures !IsValidPair(key, value) ==> outcome == Completed && store == old(store) && keys == old(keys)
      ensures IsValidPair(key, value) && key.Null? ==>
        outcome == Raised(ArgumentNullException("key")) && store == old(store) && keys == old(keys)
      ensures IsValidPair(key, value) && key.NonNull? ==>
        && outcome == Completed
        && store == old(store)[key.value := Entry(value, EntryOptionsFor(ExpirationSeconds, tokens.current).value)]
        && keys == TryAdd(old(keys), key.value, true)
    {
      outcome := RefreshWithExpiration(key, value, ExpirationSeconds);
    }

    /** `Refresh(key, value, expiration)`: `Remove` then `Set(key, value, expiration)`. */
    method RefreshWithExpiration(key: Nullable<string>, value: Value, expiration: int) returns (outcome: Outcome)
      requires Valid()
      modifies this
      ensures Valid()
      ensures tokens.current == old(tokens.current)
      ensures !IsValidPair(key, value) ==> outcome == Completed && store == old(store) && keys == old(keys)
      ensures IsValidPair(key, value) && expiration <= 0 ==>
        && outcome == Raised(ArgumentOutOfRangeException("AbsoluteExpirationRelativeToNow"))
        && store == (if IsValidKey(key) then old(store) - {key.value} else old(store))
        && keys == old(keys)
      ensures IsValidPair(key, value) && key.Null? && expiration > 0 ==>
        outcome == Raised(ArgumentNullException("key")) && store == old(store) && keys == old(keys)
      ensures IsValidPair(key, value) && key.NonNull? && expiration > 0 ==>
        && outcome == Completed
        && store == old(store)[key.value := Entry(value, EntryOptionsFor(expiration, tokens.current).value)]
        && keys == TryAdd(old(keys), key.value, true)
    {
      outcome := Completed;
      if IsValidPair(key, value) {
        Remove(key);
        outcome := SetWithExpiration(key, value, expiration);
      }
    }

    /** `Flush()` as written: the old source is cancelled only when cancellation
        was already requested, so no source is ever cancelled; a fresh source
        replaces it and every entry stays reachable. */
    method Flush()
      requires Valid()
      modifies tokens
      ensures Valid()
      ensures tokens.cancelled == old(tokens.cancelled)
      ensures tokens.current == old(tokens.issued) && tokens.current != old(tokens.current)
      ensures store == old(store) && keys == old(keys)
      ensures forall k :: Live(k) <==> old(Live(k))
    {
      if tokens.IsCancellationRequested(tokens.current) {
        tokens.Cancel(tokens.current);
      }
      tokens.InstallNew();
    }

    /** `Flush()` with the guard as evidently intended (`!IsCancellationRequested`):
        every entry written since the previous flush becomes unreachable. */
    method FlushAndExpire()
      requires Valid()
      modifies tokens
      ensures Valid()
      ensures tokens.cancelled == old(tokens.cancelled) + {old(tokens.current)}
      ensures tokens.current == old(tokens.issued)
      ensures store == old(store) && keys == old(keys)
      ensures forall k | k in store && store[k].options.token == old(tokens.current) :: !Live(k)
    {
      if !tokens.IsCancellationRequested(tokens.current) {
        tokens.Cancel(tokens.current);
      }
      tokens.InstallNew();
    }

    /** `PostEviction(key, value, reason, state)`, called by the store when it
        drops an entry. A replacement changes nothing; any other reason first
        drops the `false`-flagged keys of the index, of which there are none,
        then removes the evicted key from the index. */
    method PostEviction(key: string, reason: EvictionReason)
      requires Valid()
      modifies this
      ensures Valid()
      ensures store == old(store)
      ensures reason == Replaced ==> keys == old(keys)
      ensures reason != Replaced ==> keys == AfterTryRemoveKey(old(keys) - (FalseFlagged(old(keys)) - {""}), key)
      ensures reason != Replaced ==> keys == if key == "" then old(keys) else old(keys) - {key}
    {
      if reason == Replaced {
        return;
      }
      ClearKeys();
      TryRemoveKey(key);
    }

    /** `ClearKeys()`: removes every key of a snapshot of the `false`-flagged
        keys. While every flag is `true`, as the public operations keep them, it
        removes nothing. */
    method ClearKeys()
      requires Coherent()
      modifies this
      ensures Coherent()
      ensures AllFlagsTrue(old(keys)) ==> AllFlagsTrue(keys)
      ensures store == old(store)
      ensures keys == old(keys) - (FalseFlagged(old(keys)) - {""})
      ensures AllFlagsTrue(old(keys)) ==> keys == old(keys)
    {
      var pending := FalseFlagged(keys);
      var todo := pending;
      while todo != {}
        invariant Coherent()
        invariant todo <= pending
        invariant store == old(store)
        invariant keys == old(keys) - (set k | k in pending - todo && k != "")
        decreases |todo|
      {
        var k :| k in todo;
        var _ := RemoveKey(k);
        todo := todo - {k};
      }
    }

    /** `RemoveKey(key)`: `TryRemoveKey` for a valid key; returns the key. */
    method RemoveKey(key: string) returns (r: string)
      requires Coherent()
      modifies this
      ensures Coherent()
      ensures AllFlagsTrue(old(keys)) ==> AllFlagsTrue(keys)
      ensures r == key && store == old(store)
      ensures keys == AfterTryRemoveKey(old(keys), key)
    {
      if IsValidKey(NonNull(key)) {
        TryRemoveKey(key);
      }
      r := key;
    }

    /** `TryRemoveKey(key)`: for a valid key, `TryRemove`, and on failure
        `TryUpdate(key, false, true)`. */
    method TryRemoveKey(key: string)
      requires Coherent()
      modifies this
      ensures Coherent()
      ensures AllFlagsTrue(old(keys)) ==> AllFlagsTrue(keys)
      ensures store == old(store)
      ensures keys == AfterTryRemoveKey(old(keys), key)
    {
      if IsValidKey(NonNull(key)) {
        var (removedFrom, removed) := TryRemove(keys, key);
        if removed {
          keys := removedFrom;
        } else {
          keys := TryUpdate(keys, key, false, true);
        }
      }
    }
  }

  /** Keys "foo-1", "foo-2" and "bar-1" are set; `RemovePattern("foo-")` leaves
      only "bar-1" reachable, and the index still lists all three keys. */
  method RemovePatternScenario() returns (foo1: bool, foo2: bool, bar1: bool, indexed: set<string>)
    ensures !foo1 && !foo2 && bar1
    ensures indexed == {"foo-1", "foo-2", "bar-1"}
  {
    var tokens := new TokenRegistry();
    var cache := new OldInMemoryCacheProvider(tokens);
    var v: Value := NonNull(Instance("Person", "firat"));
    var o := cache.Set(NonNull("foo-1"), v);
    o := cache.Set(NonNull("foo-2"), v);
    o := cache.Set(NonNull("bar-1"), v);
    assert cache.keys.Keys == {"foo-1", "foo-2", "bar-1"};
    assert StartsWith("foo-1", "foo-") && StartsWith("foo-2", "foo-");
    assert "bar-1"[..4] != "foo-" by { assert "bar-1"[0] != "foo-"[0]; }
    assert (set k | k in cache.keys && k != "" && StartsWith(k, "foo-")) == {"foo-1", "foo-2"};
    o := cache.RemovePattern(NonNull("foo-"));
    foo1 := cache.Exists(NonNull("foo-1"));
    foo2 := cache.Exists(NonNull("foo-2"));
    bar1 := cache.Exists(NonNull("bar-1"));
    indexed := cache.keys.Keys;
  }
}
