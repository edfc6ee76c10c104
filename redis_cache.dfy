/** The remote cache (RedisCacheProvider): values are serialized to JSON text
    and kept in a Redis database, which is modelled as a map from keys to stored
    text with its time to live, together with the log of the commands the
    provider sends through its IDatabase. The discovered master servers are
    seen through the size of the configured database on each of them. */
module RedisCache {
  import opened Runtime
  import opened CacheCommon

  /** RedisOptions, with the defaults of its property initializers. */
  datatype RedisOptions = RedisOptions(loggingEnabled: bool, expirationInSeconds: int, isSecure: bool)

  const DefaultRedisOptions: RedisOptions := RedisOptions(false, 1800, false)

  /** The injected IJsonSerializer: `Serialize(value)` and `Deserialize<T>(text)`. */
  datatype Serializer = Serializer(serialize: Value -> string, deserialize: (string, TypeId) -> Value)

  /** `Deserialize<T>` yields a value of type `T`. */
  ghost predicate WellTyped(s: Serializer) {
    forall text, t :: HasType(s.deserialize(text, t), t)
  }

  /** Deserializing what was serialized gives the value back. */
  ghost predicate RoundTrips(s: Serializer) {
    forall v, t | HasType(v, t) :: s.deserialize(s.serialize(v), t) == v
  }

  /** What the Newtonsoft.Json-based serializer throws when handed a null
      text: its `StringReader` refuses a null string with parameter name "s".
      The System.Text.Json-based serializer would throw
      ArgumentNullException("json") instead; the model stands for the former. */
  const NullTextError: Exception := ArgumentNullException("s")

  /** `ProtectCache`: the data protection is a stub returning its input, so the
      secure mode stores exactly the text the non-secure mode stores. */
  function ProtectCache(data: string): (r: string)
    ensures r == data && |r| == |data|
  {
    data
  }

  /** `UnProtectCache`: returns its input, a null result included. */
  function UnProtectCache(result: Nullable<string>): (r: Nullable<string>)
    ensures r == result && (r.Null? <==> result.Null?)
  {
    result
  }

  /** `ProtectCache` and `UnProtectCache` are inverse. */
  lemma ProtectionRoundTrips(data: string)
    ensures UnProtectCache(NonNull(ProtectCache(data))) == NonNull(data)
  {
  }

  /** A value in the Redis database: its text and its time to live in seconds (Null: none). */
  datatype Stored = Stored(payload: string, ttl: Nullable<int>)

  /** A command sent through IDatabase. */
  datatype Command =
    | StringGet(key: string)
    | StringGetMany(keys: seq<string>)
    | StringSet(key: string, payload: string, ttl: Nullable<int>)
    | StringSetMany(pairs: seq<(string, string)>)
    | KeyDelete(key: string)
    | KeyDeleteMany(keys: seq<string>)
    | KeyExists(key: string)

  /** A bulk command over an empty array: StackExchange.Redis answers it
      itself and sends nothing to the server. */
  predicate EmptyBulk(c: Command) {
    match c
    case StringGetMany(keys) => keys == []
    case StringSetMany(pairs) => pairs == []
    case KeyDeleteMany(keys) => keys == []
    case _ => false
  }

  /** The commands that reach the server when the provider issues `c`. */
  function Sent(c: Command): (r: seq<Command>)
    ensures r == [] <==> EmptyBulk(c)
    ensures r != [] ==> r == [c]
  {
    if EmptyBulk(c) then [] else [c]
  }

  /** The keys of a list of pairs. */
  function KeysOf(pairs: seq<(string, string)>): set<string> {
    set i | 0 <= i < |pairs| :: pairs[i].0
  }

  /** MSET of `pairs`, applied left to right: the keys given are added, without
      a time to live, and the other keys are untouched. */
  function SetAll(data: map<string, Stored>, pairs: seq<(string, string)>): (r: map<string, Stored>)
    ensures r.Keys == data.Keys + KeysOf(pairs)
    ensures forall k | k in data && k !in KeysOf(pairs) :: r[k] == data[k]
    ensures forall k | k in r :: r[k].ttl.Null? || (k in data && r[k] == data[k])
    decreases |pairs|
  {
    if pairs == [] then data
    else
      var last := pairs[|pairs| - 1];
      var front := SetAll(data, pairs[..|pairs| - 1]);
      assert KeysOf(pairs) == KeysOf(pairs[..|pairs| - 1]) + {last.0} by {
        forall k | k in KeysOf(pairs) ensures k in KeysOf(pairs[..|pairs| - 1]) + {last.0} {
          var i :| 0 <= i < |pairs| && pairs[i].0 == k;
          if i < |pairs| - 1 {
            assert pairs[..|pairs| - 1][i] == pairs[i];
          }
        }
      }
      front[last.0 := Stored(last.1, Null)]
  }

  /** With MSET the last pair of a key wins. */
  lemma {:induction false} SetAllLastWins(data: map<string, Stored>, pairs: seq<(string, string)>, i: int)
    requires 0 <= i < |pairs|
    requires forall j | i < j < |pairs| :: pairs[j].0 != pairs[i].0
    ensures SetAll(data, pairs)[pairs[i].0] == Stored(pairs[i].1, Null)
    decreases |pairs|
  {
    if i < |pairs| - 1 {
      var front := pairs[..|pairs| - 1];
      assert front[i] == pairs[i];
      SetAllLastWins(data, front, i);
    }
  }

  /** DEL of `keys`: every listed key is gone, the others untouched. */
  function DeleteAll(data: map<string, Stored>, keys: seq<string>): (r: map<string, Stored>)
    ensures r.Keys == data.Keys - (set i | 0 <= i < |keys| :: keys[i])
    ensures forall k | k in r :: r[k] == data[k]
  {
    data - (set i | 0 <= i < |keys| :: keys[i])
  }

  /** The keys of `keys` that `RemoveAll` keeps: the non-null, non-empty ones, in order. */
  function NonEmptyKeys(keys: seq<Nullable<string>>): (r: seq<string>)
    ensures |r| <= |keys|
    ensures forall k :: k in r <==> NonNull(k) in keys && |k| > 0
    decreases |keys|
  {
    if keys == [] then []
    else
      var rest := NonEmptyKeys(keys[1..]);
      assert forall x :: x in keys <==> x == keys[0] || x in keys[1..];
      if IsNullOrEmpty(keys[0]) then rest else [keys[0].value] + rest
  }

  /** The texts the serializer makes of the pairs of `SetKeysAsync`, passed through `ProtectCache`. */
  function SerializePairs(s: Serializer, pairs: seq<(string, Value)>): (r: seq<(string, string)>)
    ensures |r| == |pairs|
    ensures forall i | 0 <= i < |pairs| :: r[i] == (pairs[i].0, s.serialize(pairs[i].1))
  {
    seq(|pairs|, i requires 0 <= i < |pairs| => (pairs[i].0, ProtectCache(s.serialize(pairs[i].1))))
  }

  /** The value a key of the database reads back as, through `Deserialize<T>`. */
  function Decode(s: Serializer, stored: Stored, t: TypeId): (r: Value)
    ensures WellTyped(s) ==> HasType(r, t)
  {
    s.deserialize(UnProtectCache(NonNull(stored.payload)).value, t)
  }

  /** A stored text decodes to the value it serialized. */
  lemma DecodeSerialized(s: Serializer, v: Value, t: TypeId, ttl: Nullable<int>)
    requires RoundTrips(s) && HasType(v, t)
    ensures Decode(s, Stored(ProtectCache(s.serialize(v)), ttl), t) == v
  {
  }

  /** The sum of the sizes, in unbounded arithmetic. */
  function Sum(sizes: seq<nat>): nat
    decreases |sizes|
  {
    if sizes == [] then 0 else Sum(sizes[..|sizes| - 1]) + sizes[|sizes| - 1]
  }

  /** Unchecked addition in `int` depends only on the operands modulo 2^32. */
  lemma ToInt32Congruent(x: int, y: int)
    requires (x - y) % TWO_32 == 0
    ensures ToInt32(x) == ToInt32(y)
  {
    assert x % TWO_32 == y % TWO_32;
  }

  lemma ToInt32Add(a: int, b: int)
    ensures ToInt32(ToInt32(a) + ToInt32(b)) == ToInt32(a + b)
  {
    var ra, rb := ToInt32(a), ToInt32(b);
    assert (ra - a) % TWO_32 == 0 && (rb - b) % TWO_32 == 0;
    assert ((ra + rb) - (a + b)) % TWO_32 == 0;
    ToInt32Congruent(ra + rb, a + b);
  }

  /** The response loop of `GetKeysAsync` over the results of MGET, as written:
      a missing key gives a null text, which the serializer rejects; otherwise
      every result is deserialized, and in secure mode appended twice. */
  method CollectResponse(s: Serializer, results: seq<Nullable<string>>, t: TypeId, isSecure: bool)
    returns (r: Result<seq<Value>>)
    ensures r.Throws? <==> Null in results
    ensures r.Throws? ==> r.error == NullTextError
    ensures r.Ok? && !isSecure ==>
      && |r.value| == |results|
      && forall i | 0 <= i < |results| :: r.value[i] == s.deserialize(results[i].value, t)
    ensures r.Ok? && isSecure ==>
      && |r.value| == 2 * |results|
      && forall i | 0 <= i < |results| :: r.value[2 * i] == r.value[2 * i + 1] == s.deserialize(results[i].value, t)
  {
    var response: seq<Value> := [];
    var i := 0;
    while i < |results|
      invariant 0 <= i <= |results|
      invariant Null !in results[..i]
      invariant !isSecure ==>
        && |response| == i
        && forall j | 0 <= j < i :: response[j] == s.deserialize(results[j].value, t)
      invariant isSecure ==>
        && |response| == 2 * i
        && forall j | 0 <= j < i :: response[2 * j] == response[2 * j + 1] == s.deserialize(results[j].value, t)
    {
      var result := results[i];
      if isSecure {
        var text := UnProtectCache(result);
        if text.Null? {
          return Throws(NullTextError);
        }
        response := response + [s.deserialize(text.value, t)];
      }
      if result.Null? {
        return Throws(NullTextError);
      }
      response := response + [s.deserialize(result.value, t)];
      assert results[..i + 1] == results[..i] + [results[i]];
      i := i + 1;
    }
    assert results[..i] == results;
    r := Ok(response);
  }

  /** The response loop with the evident intent: one element per result in
      either mode, and a missing key read as null, as `Get` reads it, instead
      of handing the serializer a null text. */
  method CollectResponseIntended(s: Serializer, results: seq<Nullable<string>>, t: TypeId, isSecure: bool)
    returns (r: seq<Value>)
    ensures |r| == |results|
    ensures forall i | 0 <= i < |results| ::
      r[i] == if results[i].Null? then Null else s.deserialize(results[i].value, t)
  {
    r := [];
    var i := 0;
    while i < |results|
      invariant 0 <= i <= |results|
      invariant |r| == i
      invariant forall j | 0 <= j < i ::
        r[j] == if results[j].Null? then Null else s.deserialize(results[j].value, t)
    {
      var result := results[i];
      if isSecure {
        result := UnProtectCache(result);
      }
      if result.Null? {
        r := r + [Null];
      } else {
        r := r + [s.deserialize(result.value, t)];
      }
      i := i + 1;
    }
  }

  /** The MGET reply for `keys` against `data`: the stored text of each key, or null. */
  function Lookup(data: map<string, Stored>, keys: seq<string>): (r: seq<Nullable<string>>)
    ensures |r| == |keys|
    ensures forall i | 0 <= i < |keys| :: r[i] == if keys[i] in data then NonNull(data[keys[i]].payload) else Null
  {
    seq(|keys|, i requires 0 <= i < |keys| => if keys[i] in data then NonNull(data[keys[i]].payload) else Null)
  }

  class RedisCacheProvider {
    const options: RedisOptions
    const serializer: Serializer
    /** `_cache.Database`: the index of the database the provider uses. */
    const database: int
    /** The Redis database: stored text and time to live by key. */
    var data: map<string, Stored>
    /** The commands sent through `_cache`, oldest first. */
    var log: seq<Command>
    /** `DatabaseSize(database)` of each discovered server, in discovery order. */
    var sizes: seq<nat>

    constructor (options: RedisOptions, serializer: Serializer, database: int, data: map<string, Stored>, sizes: seq<nat>)
      ensures this.options == options && this.serializer == serializer && this.database == database
      ensures this.data == data && this.sizes == sizes && log == []
    {
      this.options := options;
      this.serializer := serializer;
      this.database := database;
      this.data := data;
      this.sizes := sizes;
      log := [];
    }

    /** The text `Set` sends for `value`, in either mode. */
    function Payload(value: Value): (r: string)
      reads this
      ensures r == serializer.serialize(value)
    {
      if options.isSecure then ProtectCache(serializer.serialize(value)) else serializer.serialize(value)
    }

    /** `Set(key, value)`: `Set` with `ExpirationInSeconds`. */
    method Set(key: Nullable<string>, value: Value) returns (outcome: Outcome)
      modifies this
      ensures sizes == old(sizes)
      ensures !IsValidPair(key, value) ==> outcome == Completed && data == old(data) && log == old(log)
      ensures IsValidPair(key, value) && key.Null? ==>
        outcome == Raised(ArgumentException("")) && data == old(data) && log == old(log)
      ensures IsValidPair(key, value) && key.NonNull? ==>
        && outcome == Completed
        && data == old(data)[key.value := Stored(serializer.serialize(value), NonNull(options.expirationInSeconds))]
        && log == old(log) + [StringSet(key.value, serializer.serialize(value), NonNull(options.expirationInSeconds))]
    {
      outcome := SetWithExpiration(key, value, options.expirationInSeconds);
    }

    /** `Set(key, value, expiration)`: a valid pair is stored as
        `Serialize(value)` with the given time to live. A null key passes the
        validation only with a null value, and the client then refuses it. */
    method SetWithExpiration(key: Nullable<string>, value: Value, expiration: int) returns (outcome: Outcome)
      modifies this
      ensures sizes == old(sizes)
      ensures !IsValidPair(key, value) ==> outcome == Completed && data == old(data) && log == old(log)
      ensures IsValidPair(key, value) && key.Null? ==>
        outcome == Raised(ArgumentException("")) && data == old(data) && log == old(log)
      ensures IsValidPair(key, value) && key.NonNull? ==>
        && outcome == Completed
        && data == old(data)[key.value := Stored(serializer.serialize(value), NonNull(expiration))]
        && log == old(log) + [StringSet(key.value, serializer.serialize(value), NonNull(expiration))]
    {
      outcome := Completed;
      if IsValidPair(key, value) {
        var payload := Payload(value);
        if key.Null? {
          return Raised(ArgumentException(""));
        }
        data := data[key.value := Stored(payload, NonNull(expiration))];
        log := log + [StringSet(key.value, payload, NonNull(expiration))];
      }
    }

    /** `SetStringAsync(key, value)`: as `Set(key, value)`. */
    method SetStringAsync(key: Nullable<string>, value: Value) returns (outcome: Outcome)
      modifies this
      ensures sizes == old(sizes)
      ensures !IsValidPair(key, value) ==> outcome == Completed && data == old(data) && log == old(log)
      ensures IsValidPair(key, value) && key.Null? ==>
        outcome == Raised(ArgumentException("")) && data == old(data) && log == old(log)
      ensures IsValidPair(key, value) && key.NonNull? ==>
        && outcome == Completed
        && data == old(data)[key.value := Stored(serializer.serialize(value), NonNull(options.expirationInSeconds))]
        && log == old(log) + [StringSet(key.value, serializer.serialize(value), NonNull(options.expirationInSeconds))]
    {
      outcome := SetWithExpiration(key, value, options.expirationInSeconds);
    }

    /** `SetStringAsync(key, value, expiration)`: as `Set(key, value, expiration)`. */
    method SetStringAsyncWithExpiration(key: Nullable<string>, value: Value, expiration: int) returns (outcome: Outcome)
      modifies this
      ensures sizes == old(sizes)
      ensures !IsValidPair(key, value) ==> outcome == Completed && data == old(data) && log == old(log)
      ensures IsValidPair(key, value) && key.Null? ==>
        outcome == Raised(ArgumentException("")) && data == old(data) && log == old(log)
      ensures IsValidPair(key, value) && key.NonNull? ==>
        && outcome == Completed
        && data == old(data)[key.value := Stored(serializer.serialize(value), NonNull(expiration))]
        && log == old(log) + [StringSet(key.value, serializer.serialize(value), NonNull(expiration))]
    {
      outcome := SetWithExpiration(key, value, expiration);
    }

    /** `SetKeysAsync(pairs)`: a non-null list is written in one MSET, without
        validation and without a time to live. */
    method SetKeysAsync(pairs: Nullable<seq<(string, Value)>>)
      modifies this
      ensures sizes == old(sizes)
      ensures pairs.Null? ==> data == old(data) && log == old(log)
      ensures pairs.NonNull? ==>
        && data == SetAll(old(data), SerializePairs(serializer, pairs.value))
        && log == old(log) + Sent(StringSetMany(SerializePairs(serializer, pairs.value)))
    {
      if pairs.NonNull? {
        var texts := SerializePairs(serializer, pairs.value);
        data := SetAll(data, texts);
        log := log + Sent(StringSetMany(texts));
      }
    }

    /** `Get<T>(key)`: for a valid key, one GET; a present key reads back as
        `Deserialize<T>` of its text, a missing one as null. An invalid key gives
        null and sends nothing. */
    method Get(key: Nullable<string>, t: TypeId) returns (r: Value)
      modifies this
      ensures data == old(data) && sizes == old(sizes)
      ensures !IsValidKey(key) ==> r == Null && log == old(log)
      ensures IsValidKey(key) ==> log == old(log) + [StringGet(key.value)]
      ensures IsValidKey(key) && key.value !in data ==> r == Null
      ensures IsValidKey(key) && key.value in data ==> r == Decode(serializer, data[key.value], t)
    {
      r := Null;
      if IsValidKey(key) {
        log := log + [StringGet(key.value)];
        var result := if key.value in data then NonNull(data[key.value].payload) else Null;
        if result.NonNull? {
          if options.isSecure {
            result := UnProtectCache(result);
          }
          r := serializer.deserialize(result.value, t);
        }
      }
    }

    /** `GetStringAsync<T>(key)`: as `Get<T>(key)`. */
    method GetStringAsync(key: Nullable<string>, t: TypeId) returns (r: Value)
      modifies this
      ensures data == old(data) && sizes == old(sizes)
      ensures !IsValidKey(key) ==> r == Null && log == old(log)
      ensures IsValidKey(key) ==> log == old(log) + [StringGet(key.value)]
      ensures IsValidKey(key) && key.value !in data ==> r == Null
      ensures IsValidKey(key) && key.value in data ==> r == Decode(serializer, data[key.value], t)
    {
      r := Get(key, t);
    }

    /** `Get<T>(key, factory)`. An invalid key gives null and calls nothing. A
        present key reads back without calling the factory. On a miss the
        factory, when there is one, is called; a null item is returned and not
        stored, any other is stored through `Set` and returned. `factory` is
        Null for a null delegate, and otherwise holds the item it returns. */
    method GetOrFactory(key: Nullable<string>, t: TypeId, factory: Nullable<Value>) returns (r: Value, invoked: bool)
      requires factory.NonNull? ==> HasType(factory.value, t)
      modifies this
      ensures sizes == old(sizes)
      ensures !IsValidKey(key) ==> r == Null && !invoked && data == old(data) && log == old(log)
      ensures IsValidKey(key) && key.value in old(data) ==>
        && r == Decode(serializer, old(data)[key.value], t) && !invoked
        && data == old(data) && log == old(log) + [StringGet(key.value)]
      ensures IsValidKey(key) && key.value !in old(data) ==> invoked == factory.NonNull?
      ensures IsValidKey(key) && key.value !in old(data) && (factory.Null? || factory.value.Null?) ==>
        r == Null && data == old(data) && log == old(log) + [StringGet(key.value)]
      ensures IsValidKey(key) && key.value !in old(data) && factory.NonNull? && factory.value.NonNull? ==>
        && r == factory.value
        && data == old(data)[key.value := Stored(serializer.serialize(r), NonNull(options.expirationInSeconds))]
        && log == old(log) + [StringGet(key.value), StringSet(key.value, serializer.serialize(r), NonNull(options.expirationInSeconds))]
    {
      if !IsValidKey(key) {
        return Null, false;
      }
      log := log + [StringGet(key.value)];
      if key.value in data {
        var result := NonNull(data[key.value].payload);
        if options.isSecure {
          result := UnProtectCache(result);
        }
        return serializer.deserialize(result.value, t), false;
      }
      invoked := factory.NonNull?;
      var item: Value := if factory.NonNull? then factory.value else Null;
      if item.Null? {
        return Null, invoked;
      }
      var _ := Set(key, item);
      r := item;
    }

    /** `GetKeysAsync<T>(keys)`: null for a null list; otherwise one MGET, and
        the response built from its results in key order, as `CollectResponse`
        does. */
    method GetKeysAsync(keys: Nullable<seq<string>>, t: TypeId) returns (r: Result<Nullable<seq<Value>>>)
      modifies this
      ensures data == old(data) && sizes == old(sizes)
      ensures keys.Null? ==> r == Ok(Null) && log == old(log)
      ensures keys.NonNull? ==> log == old(log) + Sent(StringGetMany(keys.value))
      ensures keys.NonNull? ==> (r.Throws? <==> exists i | 0 <= i < |keys.value| :: keys.value[i] !in data)
      ensures r.Throws? ==> r.error == NullTextError
      ensures keys.NonNull? && r.Ok? ==>
        r.value.NonNull? && |r.value.value| == (if options.isSecure then 2 else 1) * |keys.value|
      ensures keys.NonNull? && r.Ok? && !options.isSecure ==>
        forall i | 0 <= i < |keys.value| :: r.value.value[i] == Decode(serializer, data[keys.value[i]], t)
      ensures keys.NonNull? && r.Ok? && options.isSecure ==>
        forall i | 0 <= i < |keys.value| ::
          r.value.value[2 * i] == r.value.value[2 * i + 1] == Decode(serializer, data[keys.value[i]], t)
    {
      if keys.Null? {
        return Ok(Null);
      }
      log := log + Sent(StringGetMany(keys.value));
      var results := Lookup(data, keys.value);
      LookupHasNull(data, keys.value);
      var response := CollectResponse(serializer, results, t, options.isSecure);
      if response.Throws? {
        return Throws(response.error);
      }
      r := Ok(NonNull(response.value));
    }

    /** `GetKeysAsync<T>(keys)` with the response loop as evidently intended:
        one element per key, in key order, null for a missing key. */
    method GetKeysAsyncIntended(keys: Nullable<seq<string>>, t: TypeId) returns (r: Nullable<seq<Value>>)
      modifies this
      ensures data == old(data) && sizes == old(sizes)
      ensures keys.Null? ==> r == Null && log == old(log)
      ensures keys.NonNull? ==> log == old(log) + Sent(StringGetMany(keys.value))
      ensures keys.NonNull? ==>
        && r.NonNull?
        && |r.value| == |keys.value|
        && forall i | 0 <= i < |keys.value| ::
             r.value[i] == if keys.value[i] in data then Decode(serializer, data[keys.value[i]], t) else Null
    {
      if keys.Null? {
        return Null;
      }
      log := log + Sent(StringGetMany(keys.value));
      var results := Lookup(data, keys.value);
      var response := CollectResponseIntended(serializer, results, t, options.isSecure);
      r := NonNull(response);
    }

    /** `Remove(key)`: one DEL for a valid key; nothing for an invalid one. */
    method Remove(key: Nullable<string>)
      modifies this
      ensures sizes == old(sizes)
      ensures !IsValidKey(key) ==> data == old(data) && log == old(log)
      ensures IsValidKey(key) ==> data == old(data) - {key.value} && log == old(log) + [KeyDelete(key.value)]
    {
      if IsValidKey(key) {
        data := data - {key.value};
        log := log + [KeyDelete(key.value)];
      }
    }

    /** `RemoveStringAsync(key)`: as `Remove(key)`. */
    method RemoveStringAsync(key: Nullable<string>)
      modifies this
      ensures sizes == old(sizes)
      ensures !IsValidKey(key) ==> data == old(data) && log == old(log)
      ensures IsValidKey(key) ==> data == old(data) - {key.value} && log == old(log) + [KeyDelete(key.value)]
    {
      Remove(key);
    }

    /** `RemoveKeysAsync(keys)`: a non-null list is deleted in one DEL, unfiltered. */
    method RemoveKeysAsync(keys: Nullable<seq<string>>)
      modifies this
      ensures sizes == old(sizes)
      ensures keys.Null? ==> data == old(data) && log == old(log)
      ensures keys.NonNull? ==> data == DeleteAll(old(data), keys.value) && log == old(log) + Sent(KeyDeleteMany(keys.value))
    {
      if keys.NonNull? {
        data := DeleteAll(data, keys.value);
        log := log + Sent(KeyDeleteMany(keys.value));
      }
    }

    /** `RemoveAll(keys)`: the null and empty keys are dropped and, if any key
        remains, the rest are deleted in one DEL. A null list makes the filter
        throw. */
    method RemoveAll(keys: Nullable<seq<Nullable<string>>>) returns (outcome: Outcome)
      modifies this
      ensures sizes == old(sizes)
      ensures keys.Null? ==> outcome == Raised(ArgumentNullException("source")) && data == old(data) && log == old(log)
      ensures keys.NonNull? && NonEmptyKeys(keys.value) == [] ==> outcome == Completed && data == old(data) && log == old(log)
      ensures keys.NonNull? && NonEmptyKeys(keys.value) != [] ==>
        && outcome == Completed
        && data == DeleteAll(old(data), NonEmptyKeys(keys.value))
        && log == old(log) + [KeyDeleteMany(NonEmptyKeys(keys.value))]
    {
      if keys.Null? {
        return Raised(ArgumentNullException("source"));
      }
      var redisKeys := NonEmptyKeys(keys.value);
      if |redisKeys| > 0 {
        data := DeleteAll(data, redisKeys);
        log := log + [KeyDeleteMany(redisKeys)];
      }
      outcome := Completed;
    }

    /** `Exists(key)`: false for an invalid key, which is not queried; otherwise one EXISTS. */
    method Exists(key: Nullable<string>) returns (r: bool)
      modifies this
      ensures data == old(data) && sizes == old(sizes)
      ensures r <==> IsValidKey(key) && key.value in data
      ensures !IsValidKey(key) ==> log == old(log)
      ensures IsValidKey(key) ==> log == old(log) + [KeyExists(key.value)]
    {
      r := false;
      if IsValidKey(key) {
        log := log + [KeyExists(key.value)];
        r := key.value in data;
      }
    }

    /** `Refresh(key, value)`: `Refresh` with `ExpirationInSeconds`, for a valid pair. */
    method Refresh(key: Nullable<string>, value: Value) returns (outcome: Outcome)
      modifies this
      ensures sizes == old(sizes)
      ensures !IsValidPair(key, value) ==> outcome == Completed && data == old(data) && log == old(log)
      ensures IsValidPair(key, value) && key.Null? ==>
        outcome == Raised(ArgumentException("")) && data == old(data) && log == old(log)
      ensures IsValidPair(key, value) && key.NonNull? ==>
        && outcome == Completed
        && data == old(data)[key.value := Stored(serializer.serialize(value), NonNull(options.expirationInSeconds))]
    {
      outcome := Completed;
      if IsValidPair(key, value) {
        outcome := RefreshWithExpiration(key, value, options.expirationInSeconds);
      }
    }

    /** `Refresh(key, value, expiration)`: `Remove` then `Set`, for a valid pair. */
    method RefreshWithExpiration(key: Nullable<string>, value: Value, expiration: int) returns (outcome: Outcome)
      modifies this
      ensures sizes == old(sizes)
      ensures !IsValidPair(key, value) ==> outcome == Completed && data == old(data) && log == old(log)
      ensures IsValidPair(key, value) && key.Null? ==>
        outcome == Raised(ArgumentException("")) && data == old(data) && log == old(log)
      ensures IsValidPair(key, value) && key.NonNull? ==>
        && outcome == Completed
        && data == old(data)[key.value := Stored(serializer.serialize(value), NonNull(expiration))]
        && log == old(log) + (if IsValidKey(key) then [KeyDelete(key.value)] else []) +
          [StringSet(key.value, serializer.serialize(value), NonNull(expiration))]
    {
      outcome := Completed;
      if IsValidPair(key, value) {
        Remove(key);
        outcome := SetWithExpiration(key, value, expiration);
      }
    }

    /** `GetCount()`: the database sizes of the servers added up in unchecked
        `int` arithmetic, each first cast from `long`; it equals their sum while
        that fits in an `int`. */
    method GetCount() returns (total: Int32)
      ensures total == ToInt32(Sum(sizes))
      ensures Sum(sizes) < 0x8000_0000 ==> total == Sum(sizes)
    {
      total := 0;
      var i := 0;
      while i < |sizes|
        invariant 0 <= i <= |sizes|
        invariant total == ToInt32(Sum(sizes[..i]))
      {
        assert sizes[..i + 1][..i] == sizes[..i];
        ToInt32Add(Sum(sizes[..i]), sizes[i]);
        total := ToInt32(total + ToInt32(sizes[i]));
        i := i + 1;
      }
      assert sizes[..i] == sizes;
    }

    /** `Flush()`: flushes the configured database on every discovered server;
        with at least one server the database is empty afterwards. */
    method Flush()
      modifies this
      ensures log == old(log)
      ensures |sizes| == |old(sizes)| && forall i | 0 <= i < |sizes| :: sizes[i] == 0
      ensures data == if |old(sizes)| > 0 then map[] else old(data)
    {
      var i := 0;
      while i < |sizes|
        invariant 0 <= i <= |sizes| == |old(sizes)|
        invariant forall j | 0 <= j < i :: sizes[j] == 0
        invariant data == if i > 0 then map[] else old(data)
        invariant log == old(log)
      {
        sizes := sizes[i := 0];
        data := map[];
        i := i + 1;
      }
    }

    /** `RemovePattern(pattern)`: not implemented, a silent no-op. */
    method RemovePattern(pattern: Nullable<string>)
      modifies this
      ensures data == old(data) && log == old(log) && sizes == old(sizes)
    {
    }

    /** `Count()`: not implemented. */
    function Count(): (r: Result<int>)
      ensures r == Throws(NotImplementedException)
    {
      Throws(NotImplementedException)
    }

    /** `Set(key, value, slidingExpiration, absoluteExpiration)`: not implemented. */
    function SetSlidingAbsolute(key: Nullable<string>, value: Value, sliding: int, absolute: int): (outcome: Outcome)
      ensures outcome == Raised(NotImplementedException)
    {
      Raised(NotImplementedException)
    }
  }

  /** A missing key is exactly a null in the MGET reply. */
  lemma LookupHasNull(data: map<string, Stored>, keys: seq<string>)
    ensures Null in Lookup(data, keys) <==> exists i | 0 <= i < |keys| :: keys[i] !in data
  {
    var r := Lookup(data, keys);
    if Null in r {
      var i :| 0 <= i < |r| && r[i] == Null;
      assert keys[i] !in data;
    }
  }

  /** A value set under a valid key reads back unchanged, in secure and
      non-secure mode, when the serializer round-trips. */
  method SetThenGet(serializer: Serializer, isSecure: bool, key: string, value: Value, t: TypeId) returns (r: Value)
    requires RoundTrips(serializer)
    requires |key| > 0 && HasType(value, t)
    ensures r == value
  {
    var cache := new RedisCacheProvider(RedisOptions(false, 1800, isSecure), serializer, 0, map[], [0]);
    var _ := cache.Set(NonNull(key), value);
    DecodeSerialized(serializer, value, t, NonNull(1800));
    r := cache.Get(NonNull(key), t);
  }

  /** In secure mode, two keys set and read back together yield four values,
      each twice. */
  method SecureGetKeysDuplicates(serializer: Serializer, v1: Value, v2: Value, t: TypeId) returns (r: Result<Nullable<seq<Value>>>)
    requires RoundTrips(serializer) && HasType(v1, t) && HasType(v2, t)
    ensures r == Ok(NonNull([v1, v1, v2, v2]))
  {
    var cache := new RedisCacheProvider(RedisOptions(false, 1800, true), serializer, 0, map[], [0]);
    var o := cache.Set(NonNull("a"), v1);
    o := cache.Set(NonNull("b"), v2);
    DecodeSerialized(serializer, v1, t, NonNull(1800));
    DecodeSerialized(serializer, v2, t, NonNull(1800));
    r := cache.GetKeysAsync(NonNull(["a", "b"]), t);
    assert r.Ok? by {
      assert forall i | 0 <= i < 2 :: ["a", "b"][i] in cache.data;
    }
    var got := r.value.value;
    var keys := ["a", "b"];
    assert Decode(serializer, cache.data[keys[0]], t) == v1;
    assert Decode(serializer, cache.data[keys[1]], t) == v2;
    assert got[2 * 0] == got[2 * 0 + 1] == v1;
    assert got[2 * 1] == got[2 * 1 + 1] == v2;
    assert got == [v1, v1, v2, v2];
  }

  /** As written, one missing key makes the whole multi-get throw: its null
      result reaches the serializer. */
  method MissingKeyThrows(serializer: Serializer, v1: Value, t: TypeId) returns (r: Result<Nullable<seq<Value>>>)
    requires RoundTrips(serializer) && HasType(v1, t)
    ensures r == Throws(NullTextError)
  {
    var cache := new RedisCacheProvider(RedisOptions(false, 1800, false), serializer, 0, map[], [0]);
    var o := cache.Set(NonNull("a"), v1);
    assert "b" !in cache.data;
    r := cache.GetKeysAsync(NonNull(["a", "b"]), t);
    assert ["a", "b"][1] !in cache.data;
  }

  /** With the intended response loop the same call yields the stored value
      and a null for the missing key. */
  method MissingKeyIntended(serializer: Serializer, v1: Value, t: TypeId) returns (r: Nullable<seq<Value>>)
    requires RoundTrips(serializer) && HasType(v1, t)
    ensures r == NonNull([v1, Null])
  {
    var cache := new RedisCacheProvider(RedisOptions(false, 1800, false), serializer, 0, map[], [0]);
    var o := cache.Set(NonNull("a"), v1);
    DecodeSerialized(serializer, v1, t, NonNull(1800));
    r := cache.GetKeysAsyncIntended(NonNull(["a", "b"]), t);
    var keys := ["a", "b"];
    assert keys[0] in cache.data && keys[1] !in cache.data;
    assert r.value == [v1, Null];
  }
}
