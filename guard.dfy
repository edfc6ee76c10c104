/** The argument guards of `Ensure`: each takes a `Validation<T>` (a parameter
    name and its value), throws when the check fails, and otherwise returns the
    same `Validation<T>` so that guards chain. Values compared with `CompareTo`
    are modelled as integers. */
module Guard {
  import opened Runtime

  /** `Validation<T>`: the name of the checked parameter and its value. */
  datatype Validation<T> = Validation(name: string, value: T)

  /** `Ensure.That(name, value)`. */
  function That<T>(name: string, value: T): (v: Validation<T>)
    ensures v.name == name && v.value == value
  {
    Validation(name, value)
  }

  /** `NotNull` for a reference or a nullable value: throws
      ArgumentNullException(name) for null. */
  function NotNull<T>(v: Validation<Nullable<T>>): (r: Result<Validation<Nullable<T>>>)
    ensures r.Ok? <==> v.value.NonNull?
    ensures r.Ok? ==> r.value == v
    ensures r.Throws? ==> r.error == ArgumentNullException(v.name)
  {
    if v.value.Null? then Throws(ArgumentNullException(v.name)) else Ok(v)
  }

  /** `NotNull` for an `IEnumerable<T>`: throws ArgumentException(name) for null. */
  function NotNullEnumerable<T>(v: Validation<Nullable<seq<T>>>): (r: Result<Validation<Nullable<seq<T>>>>)
    ensures r.Ok? <==> v.value.NonNull?
    ensures r.Ok? ==> r.value == v
    ensures r.Throws? ==> r.error == ArgumentException(v.name)
  {
    if v.value.Null? then Throws(ArgumentException(v.name)) else Ok(v)
  }

  /** `NotNullOrEmpty` for a string: throws ArgumentNullException(name) for a
      null or empty string. */
  function NotNullOrEmpty(v: Validation<Nullable<string>>): (r: Result<Validation<Nullable<string>>>)
    ensures r.Ok? <==> v.value.NonNull? && |v.value.value| > 0
    ensures r.Ok? ==> r.value == v
    ensures r.Throws? ==> r.error == ArgumentNullException(v.name)
  {
    if IsNullOrEmpty(v.value) then Throws(ArgumentNullException(v.name)) else Ok(v)
  }

  /** `NotEmpty` for a string: reads `Length`, so a null string throws
      NullReferenceException; an empty one throws ArgumentException(name). */
  function NotEmptyString(v: Validation<Nullable<string>>): (r: Result<Validation<Nullable<string>>>)
    ensures r.Ok? <==> v.value.NonNull? && |v.value.value| > 0
    ensures r.Ok? ==> r.value == v
    ensures v.value.Null? ==> r == Throws(NullReferenceException)
    ensures v.value.NonNull? && |v.value.value| == 0 ==> r == Throws(ArgumentException(v.name))
  {
    if v.value.Null? then Throws(NullReferenceException)
    else if |v.value.value| == 0 then Throws(ArgumentException(v.name))
    else Ok(v)
  }

  /** `NotEmpty` for an `ICollection` (and, alike, for an array): reads `Count`
      (`Length`), so null throws NullReferenceException; an empty one throws
      ArgumentException(name). */
  function NotEmptyCollection<T>(v: Validation<Nullable<seq<T>>>): (r: Result<Validation<Nullable<seq<T>>>>)
    ensures r.Ok? <==> v.value.NonNull? && |v.value.value| > 0
    ensures r.Ok? ==> r.value == v
    ensures v.value.Null? ==> r == Throws(NullReferenceException)
    ensures v.value.NonNull? && |v.value.value| == 0 ==> r == Throws(ArgumentException(v.name))
  {
    if v.value.Null? then Throws(NullReferenceException)
    else if |v.value.value| == 0 then Throws(ArgumentException(v.name))
    else Ok(v)
  }

  /** `NotEmpty` for an `IEnumerable<T>`: `Any()` throws
      ArgumentNullException("source") for null; an empty sequence throws
      ArgumentException(name). */
  function NotEmptyEnumerable<T>(v: Validation<Nullable<seq<T>>>): (r: Result<Validation<Nullable<seq<T>>>>)
    ensures r.Ok? <==> v.value.NonNull? && |v.value.value| > 0
    ensures r.Ok? ==> r.value == v
    ensures v.value.Null? ==> r == Throws(ArgumentNullException("source"))
    ensures v.value.NonNull? && |v.value.value| == 0 ==> r == Throws(ArgumentException(v.name))
  {
    if v.value.Null? then Throws(ArgumentNullException("source"))
    else if |v.value.value| == 0 then Throws(ArgumentException(v.name))
    else Ok(v)
  }

  /** `NotEmpty` for an `IDictionary`: as for a collection, on `Count`. */
  function NotEmptyDictionary<K, V>(v: Validation<Nullable<map<K, V>>>): (r: Result<Validation<Nullable<map<K, V>>>>)
    ensures r.Ok? <==> v.value.NonNull? && |v.value.value| > 0
    ensures r.Ok? ==> r.value == v
    ensures v.value.Null? ==> r == Throws(NullReferenceException)
    ensures v.value.NonNull? && |v.value.value| == 0 ==> r == Throws(ArgumentException(v.name))
  {
    if v.value.Null? then Throws(NullReferenceException)
    else if |v.value.value| == 0 then Throws(ArgumentException(v.name))
    else Ok(v)
  }

  /** `NotZero`: rejects exactly zero, with an ArgumentException naming no parameter. */
  function NotZero(v: Validation<int>): (r: Result<Validation<int>>)
    ensures r.Ok? <==> v.value != 0
    ensures r.Ok? ==> r.value == v
    ensures r.Throws? ==> r.error == ArgumentException("")
  {
    if v.value == 0 then Throws(ArgumentException("")) else Ok(v)
  }

  /** `NotNegative`: rejects values below zero and accepts zero. */
  function NotNegative(v: Validation<int>): (r: Result<Validation<int>>)
    ensures r.Ok? <==> v.value >= 0
    ensures r.Ok? ==> r.value == v
    ensures r.Throws? ==> r.error == ArgumentException("")
  {
    if v.value < 0 then Throws(ArgumentException("")) else Ok(v)
  }

  /** The sign `CompareTo` returns for integers. */
  function CompareTo(a: int, b: int): (c: int)
    ensures c < 0 <==> a < b
    ensures c == 0 <==> a == b
    ensures c > 0 <==> a > b
    ensures -1 <= c <= 1
  {
    if a < b then -1 else if a == b then 0 else 1
  }

  /** `Positive`: `CompareTo(0) < 1`, so both zero and negatives are rejected. */
  function Positive(v: Validation<int>): (r: Result<Validation<int>>)
    ensures r.Ok? <==> v.value > 0
    ensures r.Ok? ==> r.value == v
    ensures r.Throws? ==> r.error == ArgumentException("")
  {
    if CompareTo(v.value, 0) < 1 then Throws(ArgumentException("")) else Ok(v)
  }

  /** `NotDefault`: rejects a value equal to `default(T)`, given as `dflt`. */
  function NotDefault<T(==)>(v: Validation<T>, dflt: T): (r: Result<Validation<T>>)
    ensures r.Ok? <==> v.value != dflt
    ensures r.Ok? ==> r.value == v
    ensures r.Throws? ==> r.error == ArgumentException(v.name)
  {
    if v.value == dflt then Throws(ArgumentException(v.name)) else Ok(v)
  }

  /** `OneOf(values)`: `Array.IndexOf` throws ArgumentNullException("array") for
      a null array; a value not among the values throws an ArgumentException
      naming no parameter. */
  function OneOf<T(==)>(v: Validation<T>, values: Nullable<seq<T>>): (r: Result<Validation<T>>)
    ensures r.Ok? <==> values.NonNull? && v.value in values.value
    ensures r.Ok? ==> r.value == v
    ensures values.Null? ==> r == Throws(ArgumentNullException("array"))
    ensures values.NonNull? && v.value !in values.value ==> r == Throws(ArgumentException(""))
  {
    if values.Null? then Throws(ArgumentNullException("array"))
    else if v.value !in values.value then Throws(ArgumentException(""))
    else Ok(v)
  }

  /** `GreaterThan(bound)`: strict. */
  function GreaterThan(v: Validation<int>, bound: int): (r: Result<Validation<int>>)
    ensures r.Ok? <==> v.value > bound
    ensures r.Ok? ==> r.value == v
    ensures r.Throws? ==> r.error == ArgumentOutOfRangeException(v.name)
  {
    if CompareTo(v.value, bound) <= 0 then Throws(ArgumentOutOfRangeException(v.name)) else Ok(v)
  }

  /** `GreaterThanOrEqualTo(bound)`: accepts equality. */
  function GreaterThanOrEqualTo(v: Validation<int>, bound: int): (r: Result<Validation<int>>)
    ensures r.Ok? <==> v.value >= bound
    ensures r.Ok? ==> r.value == v
    ensures r.Throws? ==> r.error == ArgumentOutOfRangeException(v.name)
  {
    if CompareTo(v.value, bound) < 0 then Throws(ArgumentOutOfRangeException(v.name)) else Ok(v)
  }

  /** `LessThan(bound)`: strict. */
  function LessThan(v: Validation<int>, bound: int): (r: Result<Validation<int>>)
    ensures r.Ok? <==> v.value < bound
    ensures r.Ok? ==> r.value == v
    ensures r.Throws? ==> r.error == ArgumentOutOfRangeException(v.name)
  {
    if CompareTo(v.value, bound) >= 0 then Throws(ArgumentOutOfRangeException(v.name)) else Ok(v)
  }

  /** `LessThanOrEqualTo(bound)`: accepts equality. */
  function LessThanOrEqualTo(v: Validation<int>, bound: int): (r: Result<Validation<int>>)
    ensures r.Ok? <==> v.value <= bound
    ensures r.Ok? ==> r.value == v
    ensures r.Throws? ==> r.error == ArgumentOutOfRangeException(v.name)
  {
    if CompareTo(v.value, bound) > 0 then Throws(ArgumentOutOfRangeException(v.name)) else Ok(v)
  }

  /** `EqualTo(other)`: calls `Value.Equals(other)`. `nullableStruct` says
      whether `T` is a `Nullable<U>` struct. For a reference `T` a null value
      throws NullReferenceException; a null `Nullable<U>` answers `Equals` with
      `other == null` and does not throw. A value that is not equal to `other`
      throws ArgumentException(name). */
  function EqualTo<T(==)>(v: Validation<Nullable<T>>, other: Nullable<T>, nullableStruct: bool): (r: Result<Validation<Nullable<T>>>)
    ensures r.Ok? <==> (v.value.NonNull? || nullableStruct) && v.value == other
    ensures r.Ok? ==> r.value == v
    ensures v.value.Null? && !nullableStruct ==> r == Throws(NullReferenceException)
    ensures (v.value.NonNull? || nullableStruct) && v.value != other ==> r == Throws(ArgumentException(v.name))
  {
    if v.value.Null? && !nullableStruct then Throws(NullReferenceException)
    else if v.value != other then Throws(ArgumentException(v.name))
    else Ok(v)
  }

  /** `NotEqualTo(other)`: the same `Equals` call, so a null reference throws
      NullReferenceException and a null `Nullable<U>` equals only null; a value
      equal to `other` throws ArgumentException(name). */
  function NotEqualTo<T(==)>(v: Validation<Nullable<T>>, other: Nullable<T>, nullableStruct: bool): (r: Result<Validation<Nullable<T>>>)
    ensures r.Ok? <==> (v.value.NonNull? || nullableStruct) && v.value != other
    ensures r.Ok? ==> r.value == v
    ensures v.value.Null? && !nullableStruct ==> r == Throws(NullReferenceException)
    ensures (v.value.NonNull? || nullableStruct) && v.value == other ==> r == Throws(ArgumentException(v.name))
  {
    if v.value.Null? && !nullableStruct then Throws(NullReferenceException)
    else if v.value == other then Throws(ArgumentException(v.name))
    else Ok(v)
  }

  /** `InRange(lower, upper)`: both bounds inclusive. */
  function InRange(v: Validation<int>, lower: int, upper: int): (r: Result<Validation<int>>)
    ensures r.Throws? <==> v.value < lower || v.value > upper
    ensures r.Ok? ==> r.value == v
    ensures r.Throws? ==> r.error == ArgumentOutOfRangeException(v.name)
  {
    if CompareTo(v.value, lower) < 0 || CompareTo(v.value, upper) > 0 then
      Throws(ArgumentOutOfRangeException(v.name))
    else Ok(v)
  }

  /** `Positive` is `NotNegative` and `NotZero` together. */
  lemma PositiveIsNotNegativeAndNotZero(v: Validation<int>)
    ensures Positive(v).Ok? <==> NotNegative(v).Ok? && NotZero(v).Ok?
  {
  }

  /** The strict comparisons are the complements of the opposite non-strict
      ones, and each strict one implies its non-strict one. */
  lemma ComparisonsRelate(v: Validation<int>, bound: int)
    ensures GreaterThan(v, bound).Ok? <==> LessThanOrEqualTo(v, bound).Throws?
    ensures LessThan(v, bound).Ok? <==> GreaterThanOrEqualTo(v, bound).Throws?
    ensures GreaterThan(v, bound).Ok? ==> GreaterThanOrEqualTo(v, bound).Ok?
    ensures LessThan(v, bound).Ok? ==> LessThanOrEqualTo(v, bound).Ok?
    ensures GreaterThanOrEqualTo(v, bound).Ok? && LessThanOrEqualTo(v, bound).Ok? <==> v.value == bound
  {
  }

  /** `InRange` is `GreaterThanOrEqualTo(lower)` followed by `LessThanOrEqualTo(upper)`;
      with `lower > upper` it always throws. */
  lemma InRangeIsBothBounds(v: Validation<int>, lower: int, upper: int)
    ensures InRange(v, lower, upper).Ok? <==> GreaterThanOrEqualTo(v, lower).Ok? && LessThanOrEqualTo(v, upper).Ok?
    ensures lower > upper ==> InRange(v, lower, upper).Throws?
  {
  }

  /** Whenever `Equals` can be called (a non-null value, or any `Nullable<U>`)
      exactly one of `EqualTo` and `NotEqualTo` throws, and it throws
      ArgumentException(name); for a null reference both throw
      NullReferenceException. */
  lemma EqualToComplementsNotEqualTo<T>(v: Validation<Nullable<T>>, other: Nullable<T>, nullableStruct: bool)
    ensures v.value.NonNull? || nullableStruct ==>
      (EqualTo(v, other, nullableStruct).Ok? <==> NotEqualTo(v, other, nullableStruct).Throws?)
    ensures v.value.NonNull? || nullableStruct ==>
      (EqualTo(v, other, nullableStruct).Throws? ==> EqualTo(v, other, nullableStruct).error == ArgumentException(v.name))
      && (NotEqualTo(v, other, nullableStruct).Throws? ==> NotEqualTo(v, other, nullableStruct).error == ArgumentException(v.name))
    ensures v.value.Null? && !nullableStruct ==>
      EqualTo(v, other, nullableStruct) == NotEqualTo(v, other, nullableStruct) == Throws(NullReferenceException)
  {
  }

  /** `Ensure.That<int?>("p", null)`: `EqualTo(null)` passes, `NotEqualTo(null)`
      throws ArgumentException("p"), and `EqualTo(3)` throws ArgumentException("p"). */
  lemma NullNullableStruct()
    ensures EqualTo<int>(That("p", Null), Null, true) == Ok(Validation("p", Null))
    ensures NotEqualTo<int>(That("p", Null), Null, true) == Throws(ArgumentException("p"))
    ensures EqualTo<int>(That("p", Null), NonNull(3), true) == Throws(ArgumentException("p"))
    ensures NotEqualTo<int>(That("p", Null), NonNull(3), true) == Ok(Validation("p", Null))
  {
  }

  /** `OneOf` with no values always throws. */
  lemma OneOfNothingThrows<T>(v: Validation<T>)
    ensures OneOf(v, NonNull([])).Throws?
  {
  }

  /** `NotNullOrEmpty` and `NotEmpty` accept the same strings and differ only in
      what they throw; `NotNullOrEmpty` implies `NotNull`. */
  lemma StringGuardsAgree(v: Validation<Nullable<string>>)
    ensures NotNullOrEmpty(v).Ok? <==> NotEmptyString(v).Ok?
    ensures NotNullOrEmpty(v).Ok? ==> NotNull(v).Ok?
    ensures v.value == NonNull("") ==> NotNullOrEmpty(v).error.ArgumentNullException? && NotEmptyString(v).error.ArgumentException?
  {
  }

  /** Guards chain: a validation that passes several guards comes out of the
      chain unchanged. */
  lemma ChainReturnsInput(v: Validation<int>, lower: int, upper: int)
    requires Positive(v).Ok? && InRange(v, lower, upper).Ok?
    ensures InRange(Positive(v).value, lower, upper) == Ok(v)
  {
  }
}
