/** The parts of the .NET runtime that every component of the model shares:
    references that may be null, the exceptions the components throw, the
    fixed-width integer types and their unchecked conversions, and strings
    seen as text. */
module Runtime {

  /** A C# reference (or nullable value) that may be null. */
  datatype Nullable<+T> = Null | NonNull(value: T)

  /** Names a runtime type, for the type tests `x is T` of the caches. */
  type TypeId = string

  /** An object on the heap of the cached program: its runtime type and its state. */
  datatype Instance = Instance(ty: TypeId, state: string)

  /** A value of a reference type, as the caches store it. */
  type Value = Nullable<Instance>

  /** True when `v` may be held by a variable of static type `t`. */
  predicate HasType(v: Value, t: TypeId) {
    v.Null? || v.value.ty == t
  }

  /** The C# test `v is T`: false for null, true for an instance of `t`. */
  predicate IsInstanceOf(v: Value, t: TypeId) {
    v.NonNull? && v.value.ty == t
  }

  /** The exceptions the modelled code raises; the parameter name is "" where the source passes none. */
  datatype Exception =
    | ArgumentNullException(paramName: string)
    | ArgumentException(paramName: string)
    | ArgumentOutOfRangeException(paramName: string)
    | NullReferenceException
    | InvalidOperationException
    | NotImplementedException
    | GeneralException
    | HandlerException(handler: string)

  /** The result of a call that returns a value or throws. */
  datatype Result<+T> = Ok(value: T) | Throws(error: Exception)

  /** The result of a call that returns nothing or throws. */
  datatype Outcome = Completed | Raised(error: Exception)

  /** `string.IsNullOrEmpty`. */
  predicate IsNullOrEmpty(s: Nullable<string>) {
    s.Null? || |s.value| == 0
  }

  /** `s.StartsWith(prefix)` as an ordinal comparison, character by character;
      the culture-sensitive comparison of .NET is not modelled. */
  predicate StartsWith(s: string, prefix: string) {
    |prefix| <= |s| && s[..|prefix|] == prefix
  }

  const TWO_32: int := 0x1_0000_0000
  const TWO_64: int := 0x1_0000_0000_0000_0000

  type byte = x: int | 0 <= x < 256
  type UInt32 = x: int | 0 <= x < TWO_32
  type UInt64 = x: int | 0 <= x < TWO_64
  type Int32 = x: int | -0x8000_0000 <= x < 0x8000_0000
  type Int64 = x: int | -0x8000_0000_0000_0000 <= x < 0x8000_0000_0000_0000

  /** An unchecked conversion to `int`: the value modulo 2^32, read as two's complement. */
  function ToInt32(x: int): (r: Int32)
    ensures (r - x) % TWO_32 == 0
    ensures -0x8000_0000 <= x < 0x8000_0000 ==> r == x
  {
    var m := x % TWO_32;
    if m < 0x8000_0000 then m else m - TWO_32
  }

  /** An unchecked conversion to `long`: the value modulo 2^64, read as two's complement. */
  function ToInt64(x: int): (r: Int64)
    ensures (r - x) % TWO_64 == 0
    ensures -0x8000_0000_0000_0000 <= x < 0x8000_0000_0000_0000 ==> r == x
  {
    var m := x % TWO_64;
    if m < 0x8000_0000_0000_0000 then m else m - TWO_64
  }

  /** The decimal text of a natural number, as `int.ToString()` prints it. */
  function NatToString(n: nat): (s: string)
    ensures |s| >= 1
    ensures forall i :: 0 <= i < |s| ==> '0' <= s[i] <= '9'
    decreases n
  {
    if n < 10 then [DigitChar(n)] else NatToString(n / 10) + [DigitChar(n % 10)]
  }

  function DigitChar(d: nat): (c: char)
    requires d < 10
    ensures '0' <= c <= '9'
  {
    ['0', '1', '2', '3', '4', '5', '6', '7', '8', '9'][d]
  }

  /** The value of a string of decimal digits; the inverse of NatToString. */
  function DecimalValue(s: string): nat
    requires forall i :: 0 <= i < |s| ==> '0' <= s[i] <= '9'
  {
    if s == [] then 0 else 10 * DecimalValue(s[..|s| - 1]) + (s[|s| - 1] as int - '0' as int)
  }

  lemma {:induction false} NatToStringRoundTrip(n: nat)
    ensures DecimalValue(NatToString(n)) == n
    decreases n
  {
    var s := NatToString(n);
    if n < 10 {
      assert s[..|s| - 1] == [];
    } else {
      NatToStringRoundTrip(n / 10);
      assert s[..|s| - 1] == NatToString(n / 10);
    }
  }

  /** Distinct numbers print differently. */
  lemma NatToStringInjective(m: nat, n: nat)
    requires NatToString(m) == NatToString(n)
    ensures m == n
  {
    NatToStringRoundTrip(m);
    NatToStringRoundTrip(n);
  }
}
