/** What the two local caches and the remote cache have in common: the key
    validation of the providers that validate, the entry options a local cache
    attaches to a stored value, and the shared reset token that is meant to
    expire every entry at once. */
module CacheCommon {
  import opened Runtime

  /** `isValid(key)`: a read-style call needs a non-empty key. */
  function IsValidKey(key: Nullable<string>): (valid: bool)
    ensures valid <==> key.NonNull? && |key.value| > 0
  {
    if IsNullOrEmpty(key) then false else true
  }

  /** `isValid(key, value)`: rejects only a null or empty key that comes with a
      non-null value; a missing key with a null value passes, and so does a good
      key with a null value (which the source merely logs). */
  function IsValidPair(key: Nullable<string>, value: Value): (valid: bool)
    ensures !valid <==> IsNullOrEmpty(key) && value.NonNull?
  {
    if IsNullOrEmpty(key) && value.NonNull? then false
    else if !IsNullOrEmpty(key) && value.Null? then true
    else true
  }

  /** A key that passes the read-style check passes the write-style check with
      any value, and a pair check that passes with a non-null value implies a
      good key. */
  lemma PairValidityFollowsKeyValidity(key: Nullable<string>, value: Value)
    ensures IsValidKey(key) ==> IsValidPair(key, value)
    ensures IsValidPair(key, value) && value.NonNull? ==> IsValidKey(key)
    ensures IsValidPair(key, value) && !IsValidKey(key) <==> IsNullOrEmpty(key) && value.Null?
  {
  }

  /** Why MemoryCache removed an entry, as its post-eviction callback is told. */
  datatype EvictionReason = None | Removed | Replaced | Expired | TokenExpired | Capacity

  /** The MemoryCacheEntryOptions a local cache attaches to an entry: its size
      against the cache's size limit, its sliding and relative absolute
      expirations in seconds, the reset token that expires it, and whether the
      post-eviction callback is registered. */
  datatype EntryOptions = EntryOptions(
    size: Nullable<nat>,
    sliding: Nullable<int>,
    absolute: Nullable<int>,
    token: nat,
    evictionCallback: bool)

  /** A stored entry: the value and the options it was written with. */
  datatype Entry = Entry(value: Value, options: EntryOptions)

  /** The static `_resetCacheToken` field of a provider class together with every
      CancellationTokenSource it ever held: sources are numbered in creation
      order, `current` is the one the field holds now, and `cancelled` are those
      on which `Cancel` was called. All instances of a provider class share one
      registry, as they share the static field. */
  class TokenRegistry {
    var current: nat
    var issued: nat
    var cancelled: set<nat>

    ghost predicate Valid()
      reads this
    {
      && current < issued
      && (forall id | id in cancelled :: id < issued)
    }

    /** The static initializer `new CancellationTokenSource()`. */
    constructor ()
      ensures Valid() && current !in cancelled
      ensures current == 0 && issued == 1 && cancelled == {}
    {
      current := 0;
      issued := 1;
      cancelled := {};
    }

    /** `IsCancellationRequested` of source `id`. */
    predicate IsCancellationRequested(id: nat)
      reads this
    {
      id in cancelled
    }

    /** `Cancel()` on source `id`. */
    method Cancel(id: nat)
      requires id < issued
      modifies this
      ensures cancelled == old(cancelled) + {id}
      ensures current == old(current) && issued == old(issued)
    {
      cancelled := cancelled + {id};
    }

    /** `_resetCacheToken = new CancellationTokenSource()`: a fresh, uncancelled
        source replaces the current one. */
    method InstallNew()
      requires forall id | id in cancelled :: id < issued
      modifies this
      ensures Valid() && current !in cancelled
      ensures current == old(issued) && issued == old(issued) + 1
      ensures cancelled == old(cancelled)
    {
      current := issued;
      issued := issued + 1;
    }
  }
}
