/** The bounded local cache (InMemoryCacheProvider): a MemoryCache with a size
    limit, every entry of size 1 with sliding and absolute expirations and bound
    to the class's static reset token. It validates no keys: a null key reaches
    MemoryCache, which throws. */
module InMemoryCache {
  import opened Runtime
  import opened CacheCommon

  /** InMemoryCacheOptions, with the defaults of its property initializers. */
  datatype InMemoryCacheOptions = InMemoryCacheOptions(
    enableLogging: bool,
    slidingExpirationInSeconds: int,
    absoluteExpirationInSeconds: int,
    cacheSize: int,
    expirationScanFrequency: int)

  const DefaultOptions: InMemoryCacheOptions := InMemoryCacheOptions(false, 300, 900, 1000, 60)

  /** GetMemoryCacheEntryOptions: size 1, both expirations, the given reset
      token, no eviction callback. MemoryCacheEntryOptions refuses a
      non-positive sliding or relative absolute expiration, in that order. */
  function EntryOptionsFor(sliding: int, absolute: int, token: nat): (r: Result<EntryOptions>)
    ensures r.Ok? <==> sliding > 0 && absolute > 0
    ensures r.Ok? ==> r.value.size == NonNull(1) && r.value.token == token && !r.value.evictionCallback
    ensures r.Ok? ==> r.value.sliding == NonNull(sliding) && r.value.absolute == NonNull(absolute)
  {
    if sliding <= 0 then Throws(ArgumentOutOfRangeException("SlidingExpiration"))
    else if absolute <= 0 then Throws(ArgumentOutOfRangeException("AbsoluteExpirationRelativeToNow"))
    else Ok(EntryOptions(NonNull(1), NonNull(sliding), NonNull(absolute), token, false))
  }

  /** MemoryCache.SetEntry under a size limit, for entries of size 1: the entry
      is admitted when the current total size plus one stays within the limit
      (the total still counts a prior entry of the same key); otherwise it is
      refused and a prior entry of the key is removed. */
  function Admit(store: map<string, Entry>, limit: nat, key: string, e: Entry): (r: map<string, Entry>)
    ensures |store| + 1 <= limit ==> r == store[key := e]
    ensures |store| + 1 > limit ==> r == store - {key}
    ensures |store| <= limit ==> |r| <= limit
    ensures forall k | k != key :: (k in r <==> k in store) && (k in r ==> r[k] == store[k])
  {
    if |store| + 1 <= limit then store[key := e] else store - {key}
  }

  /** An admitted entry is found again; a refused one leaves the key absent, and
      either way the count stays within the limit. */
  lemma AdmitThenFind(store: map<string, Entry>, limit: nat, key: string, e: Entry)
    requires |store| <= limit
    ensures key in Admit(store, limit, key, e) <==> |store| < limit
    ensures key in Admit(store, limit, key, e) ==> Admit(store, limit, key, e)[key] == e
    ensures |Admit(store, limit, key, e)| <= limit
  {
  }

  /** What constructing a provider does: the `SizeLimit` setter of
      MemoryCacheOptions throws for a negative `CacheSize`, so such options never
      yield a provider. */
  function Construction(options: InMemoryCacheOptions): (o: Outcome)
    ensures o == Completed <==> options.cacheSize >= 0
    ensures o.Raised? ==> o.error == ArgumentOutOfRangeException("value")
  {
    if options.cacheSize < 0 then Raised(ArgumentOutOfRangeException("value")) else Completed
  }

  class InMemoryCacheProvider {
    const options: InMemoryCacheOptions
    /** The static `_resetCacheToken`, shared by every instance of the class. */
    const tokens: TokenRegistry
    /** The MemoryCache the provider creates: physically present entries by key. */
    var store: map<string, Entry>

    /** The size limit of the MemoryCache: `CacheSize`. */
    function SizeLimit(): nat
      reads this
      requires options.cacheSize >= 0
    {
      options.cacheSize
    }

    ghost predicate Valid()
      reads this, tokens
    {
      && tokens.Valid()
      && options.cacheSize >= 0
      && |store| <= SizeLimit()
      && (forall k | k in store :: store[k].options.size == NonNull(1) && store[k].options.token < tokens.issued)
    }

    /** An entry is reachable while its reset token has not been cancelled. */
    predicate Live(key: string)
      reads this, tokens
    {
      key in store && !tokens.IsCancellationRequested(store[key].options.token)
    }

    /** The constructor, for the options `Construction` accepts; for the
        others the source throws before a provider exists. */
    constructor (options: InMemoryCacheOptions, tokens: TokenRegistry)
      requires tokens.Valid()
      requires Construction(options) == Completed
      ensures Valid()
      ensures this.options == options && this.tokens == tokens
      ensures store == map[]
    {
      this.options := options;
      this.tokens := tokens;
      store := map[];
    }

    /** `Set(key, value)`: the configured sliding and absolute expirations. */
    method Set(key: Nullable<string>, value: Value) returns (outcome: Outcome)
      requires Valid()
      modifies this
      ensures Valid()
      ensures outcome == SetOutcome(key, options.slidingExpirationInSeconds, options.absoluteExpirationInSeconds)
      ensures outcome.Raised? ==> store == old(store)
      ensures outcome.Completed? ==> store == Admit(old(store), SizeLimit(), key.value,
        Entry(value, EntryOptionsFor(options.slidingExpirationInSeconds, options.absoluteExpirationInSeconds, tokens.current).value))
    {
      outcome := SetWithExpirations(key, value, options.slidingExpirationInSeconds, options.absoluteExpirationInSeconds);
    }

    /** How a write ends: the entry options are built first, then MemoryCache
        refuses a null key. */
    function SetOutcome(key: Nullable<string>, sliding: int, absolute: int): (outcome: Outcome)
      ensures outcome.Completed? <==> key.NonNull? && sliding > 0 && absolute > 0
    {
      match EntryOptionsFor(sliding, absolute, 0)
      case Throws(e) => Raised(e)
      case Ok(_) => if key.Null? then Raised(ArgumentNullException("key")) else Completed
    }

    /** `Set(key, value, slidingExpiration, absoluteExpiration)`. */
    method SetWithExpirations(key: Nullable<string>, value: Value, sliding: int, absolute: int) returns (outcome: Outcome)
      requires Valid()
      modifies this
      ensures Valid()
      ensures outcome == SetOutcome(key, sliding, absolute)
      ensures outcome.Raised? ==> store == old(store)
      ensures outcome.Completed? ==> store == Admit(old(store), SizeLimit(), key.value,
        Entry(value, EntryOptionsFor(sliding, absolute, tokens.current).value))
    {
      var entryOptions := EntryOptionsFor(sliding, absolute, tokens.current);
      if entryOptions.Throws? {
        return Raised(entryOptions.error);
      }
      if key.Null? {
        return Raised(ArgumentNullException("key"));
      }
      store := Admit(store, SizeLimit(), key.value, Entry(value, entryOptions.value));
      outcome := Completed;
    }

    /** `Get<T>(key)`: the stored value when it is live and its runtime type is
        `t`; a miss, a null value and a type mismatch all give null. */
    method Get(key: Nullable<string>, t: TypeId) returns (r: Result<Value>)
      requires Valid()
      ensures key.Null? ==> r == Throws(ArgumentNullException("key"))
      ensures key.NonNull? ==> r.Ok? && HasType(r.value, t)
      ensures key.NonNull? && r.value.NonNull? ==> Live(key.value) && r.value == store[key.value].value
      ensures key.NonNull? && Live(key.value) && IsInstanceOf(store[key.value].value, t) ==> r.value == store[key.value].value
    {
      if key.Null? {
        return Throws(ArgumentNullException("key"));
      }
      if Live(key.value) && IsInstanceOf(store[key.value].value, t) {
        r := Ok(store[key.value].value);
      } else {
        r := Ok(Null);
      }
    }

    /** `Get<T>(key, acquire)`. A live non-null value of type `t` is returned
        without calling `acquire`; otherwise `acquire` is called once and its
        result, null included, is stored with the configured expirations and
        returned. `acquired` is what `acquire` returns when called. */
    method GetOrAcquire(key: Nullable<string>, t: TypeId, acquired: Value) returns (r: Result<Value>, invoked: bool)
      requires Valid()
      requires HasType(acquired, t)
      modifies this
      ensures Valid()
      ensures key.Null? ==> r == Throws(ArgumentNullException("key")) && !invoked && store == old(store)
      ensures key.NonNull? && old(Live(key.value)) && IsInstanceOf(old(store)[key.value].value, t) ==>
        r == Ok(old(store)[key.value].value) && !invoked && store == old(store)
      ensures key.NonNull? && !(old(Live(key.value)) && IsInstanceOf(old(store)[key.value].value, t)) ==>
        invoked &&
        (if options.slidingExpirationInSeconds > 0 && options.absoluteExpirationInSeconds > 0
         then r == Ok(acquired) && store == Admit(old(store), SizeLimit(), key.value,
           Entry(acquired, EntryOptionsFor(options.slidingExpirationInSeconds, options.absoluteExpirationInSeconds, tokens.current).value))
         else r.Throws? && store == old(store))
    {
      invoked := false;
      if key.Null? {
        return Throws(ArgumentNullException("key")), false;
      }
      if Live(key.value) && IsInstanceOf(store[key.value].value, t) {
        return Ok(store[key.value].value), false;
      }
      invoked := true;
      var outcome := Set(key, acquired);
      if outcome.Raised? {
        return Throws(outcome.error), true;
      }
      r := Ok(acquired);
    }

    /** `Remove(key)`. */
    method Remove(key: Nullable<string>) returns (outcome: Outcome)
      requires Valid()
      modifies this
      ensures Valid()
      ensures key.Null? ==> outcome == Raised(ArgumentNullException("key")) && store == old(store)
      ensures key.NonNull? ==> outcome == Completed && store == old(store) - {key.value}
    {
      if key.Null? {
        return Raised(ArgumentNullException("key"));
      }
      store := store - {key.value};
      outcome := Completed;
    }

    /** `RemovePattern(pattern)` is not implemented by this provider. */
    function RemovePattern(pattern: Nullable<string>): (outcome: Outcome)
      ensures outcome == Raised(NotImplementedException)
    {
      Raised(NotImplementedException)
    }

    /** `Exists(key)`: a live entry, whatever its value. */
    method Exists(key: Nullable<string>) returns (r: Result<bool>)
      requires Valid()
      ensures key.Null? ==> r == Throws(ArgumentNullException("key"))
      ensures key.NonNull? ==> r == Ok(Live(key.value))
    {
      if key.Null? {
        return Throws(ArgumentNullException("key"));
      }
      r := Ok(Live(key.value));
    }

    /** `Refresh(key, value)`: `Remove` then `Set`. */
    method Refresh(key: Nullable<string>, value: Value) returns (outcome: Outcome)
      requires Valid()
      modifies this
      ensures Valid()
      ensures outcome == if key.Null? then Raised(ArgumentNullException("key"))
        else SetOutcome(key, options.slidingExpirationInSeconds, options.absoluteExpirationInSeconds)
      ensures key.Null? ==> store == old(store)
      ensures key.NonNull? && outcome.Raised? ==> store == old(store) - {key.value}
      ensures outcome.Completed? ==> store == Admit(old(store) - {key.value}, SizeLimit(), key.value,
        Entry(value, EntryOptionsFor(options.slidingExpirationInSeconds, options.absoluteExpirationInSeconds, tokens.current).value))
    {
      outcome := Remove(key);
      if outcome.Raised? {
        return;
      }
      outcome := Set(key, value);
    }

    /** `Refresh(key, value, expiration)`: ignores `expiration` and does what
        `Refresh(key, value)` does. */
    method RefreshWithExpiration(key: Nullable<string>, value: Value, expiration: int) returns (outcome: Outcome)
      requires Valid()
      modifies this
      ensures Valid()
      ensures outcome == if key.Null? then Raised(ArgumentNullException("key"))
        else SetOutcome(key, options.slidingExpirationInSeconds, options.absoluteExpirationInSeconds)
      ensures key.Null? ==> store == old(store)
      ensures key.NonNull? && outcome.Raised? ==> store == old(store) - {key.value}
      ensures outcome.Completed? ==> store == Admit(old(store) - {key.value}, SizeLimit(), key.value,
        Entry(value, EntryOptionsFor(options.slidingExpirationInSeconds, options.absoluteExpirationInSeconds, tokens.current).value))
    {
      outcome := Refresh(key, value);
    }

    /** `Flush()` as written: the old source is cancelled only when cancellation
        was already requested, so no source is ever cancelled; a fresh source
        replaces it and every entry stays reachable. */
    method Flush()
      requires Valid()
      modifies tokens
      ensures Valid()
      ensures tokens.cancelled == old(tokens.cancelled)
      ensures tokens.current == old(tokens.issued) && tokens.current != old(tokens.current)
      ensures store == old(store)
      ensures forall k :: Live(k) <==> old(Live(k))
    {
      if tokens.IsCancellationRequested(tokens.current) {
        tokens.Cancel(tokens.current);
      }
      tokens.InstallNew();
    }

    /** `Flush()` with the guard as evidently intended (`!IsCancellationRequested`):
        the old source is cancelled, so every entry written since the previous
        flush becomes unreachable, and entries written afterwards are reachable. */
    method FlushAndExpire()
      requires Valid()
      modifies tokens
      ensures Valid()
      ensures tokens.cancelled == old(tokens.cancelled) + {old(tokens.current)}
      ensures tokens.current == old(tokens.issued)
      ensures store == old(store)
      ensures forall k | k in store && store[k].options.token == old(tokens.current) :: !Live(k)
    {
      if !tokens.IsCancellationRequested(tokens.current) {
        tokens.Cancel(tokens.current);
      }
      tokens.InstallNew();
    }

    /** `Count()`: the entries physically present, expired or not. */
    method Count() returns (n: int)
      requires Valid()
      ensures n == |store|
      ensures 0 <= n <= options.cacheSize
    {
      n := |store|;
    }
  }

  /** Set, Flush, Get on a fresh provider: the value written before the flush is
      still returned after it. */
  method FlushKeepsEntries() returns (after: Result<Value>)
    ensures after == Ok(NonNull(Instance("Person", "firat")))
  {
    var tokens := new TokenRegistry();
    var cache := new InMemoryCacheProvider(DefaultOptions, tokens);
    var v: Value := NonNull(Instance("Person", "firat"));
    var _ := cache.Set(NonNull("profile"), v);
    cache.Flush();
    after := cache.Get(NonNull("profile"), "Person");
  }

  /** The same sequence with the intended flush: the value is gone. */
  method IntendedFlushExpiresEntries() returns (after: Result<Value>)
    ensures after == Ok(Null)
  {
    var tokens := new TokenRegistry();
    var cache := new InMemoryCacheProvider(DefaultOptions, tokens);
    var v: Value := NonNull(Instance("Person", "firat"));
    var _ := cache.Set(NonNull("profile"), v);
    cache.FlushAndExpire();
    after := cache.Get(NonNull("profile"), "Person");
  }
}
