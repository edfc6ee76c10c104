/** StringExtensions: the string helpers of the common library. A C# string
    that may be null is a `Nullable<string>`; number and boolean parsing and
    date conversion, which depend on the culture, are parameters. */
module StringExtensions {
  import opened Runtime
  import opened Text
  import EnumerableExtensions

  /** `IsEmpty()`: the length is read, so a null text throws. */
  function IsEmpty(text: Nullable<string>): (r: Result<bool>)
    ensures text.Null? ==> r == Throws(NullReferenceException)
    ensures text.NonNull? ==> r.Ok? && (r.value <==> |text.value| == 0)
  {
    if text.Null? then Throws(NullReferenceException) else Ok(|text.value| == 0)
  }

  /** `IsNullOrEmpty()` is `string.IsNullOrEmpty`: it agrees with IsEmpty on
      every non-null text and, unlike it, answers true for null. */
  lemma IsEmptyAndIsNullOrEmpty(text: Nullable<string>)
    ensures text.NonNull? ==> IsEmpty(text) == Ok(IsNullOrEmpty(text))
    ensures text.Null? ==> IsNullOrEmpty(text) && IsEmpty(text).Throws?
    ensures IsNullOrEmpty(text) <==> text.Null? || text == NonNull("")
  {
  }

  /** The control flow shared by `SafeIntParse`, `SafeLongParse` and
      `SafeBoolParse`: null or empty text throws, text that `tryParse` rejects
      gives `dflt`. */
  function SafeParse<N>(value: Nullable<string>, tryParse: string -> Nullable<N>, dflt: N): (r: Result<N>)
    ensures r.Throws? <==> IsNullOrEmpty(value)
    ensures r.Throws? ==> r.error == ArgumentNullException("")
    ensures r.Ok? ==> r.value == (if tryParse(value.value).NonNull? then tryParse(value.value).value else dflt)
  {
    if IsNullOrEmpty(value) then Throws(ArgumentNullException(""))
    else
      var parsed := tryParse(value.value);
      if parsed.NonNull? then Ok(parsed.value) else Ok(dflt)
  }

  /** `SafeIntParse`: `int.TryParse`, with 0 for unparsable text. */
  function SafeIntParse(value: Nullable<string>, tryParse: string -> Nullable<Int32>): (r: Result<Int32>)
    ensures r.Throws? <==> IsNullOrEmpty(value)
    ensures r.Ok? && tryParse(value.value).Null? ==> r.value == 0
    ensures r.Ok? && tryParse(value.value).NonNull? ==> r.value == tryParse(value.value).value
  {
    SafeParse(value, tryParse, 0)
  }

  /** `SafeLongParse`: `long.TryParse`, with 0 for unparsable text. */
  function SafeLongParse(value: Nullable<string>, tryParse: string -> Nullable<Int64>): (r: Result<Int64>)
    ensures r.Throws? <==> IsNullOrEmpty(value)
    ensures r.Ok? && tryParse(value.value).Null? ==> r.value == 0
    ensures r.Ok? && tryParse(value.value).NonNull? ==> r.value == tryParse(value.value).value
  {
    SafeParse(value, tryParse, 0)
  }

  /** `SafeBoolParse`: `bool.TryParse`, with false for unparsable text. */
  function SafeBoolParse(value: Nullable<string>, tryParse: string -> Nullable<bool>): (r: Result<bool>)
    ensures r.Throws? <==> IsNullOrEmpty(value)
    ensures r.Ok? ==> (r.value <==> tryParse(value.value) == NonNull(true))
  {
    SafeParse(value, tryParse, false)
  }

  /** `int.TryParse` on plain decimal digits, as far as the model needs it. */
  function DigitsParser(s: string): Nullable<Int32> {
    if (forall i | 0 <= i < |s| :: '0' <= s[i] <= '9') && DecimalValue(s) < 0x8000_0000
    then NonNull(DecimalValue(s)) else Null
  }

  /** With a parser that reads decimal digits, SafeIntParse gives back every
      non-negative `int` from its decimal text. */
  lemma SafeIntParseReadsDecimal(n: nat)
    requires n < 0x8000_0000
    ensures SafeIntParse(NonNull(NatToString(n)), DigitsParser) == Ok(n)
  {
    NatToStringRoundTrip(n);
  }

  /** The text `string.Format` puts for a string argument: nothing for null. */
  function TextOf(s: Nullable<string>): string {
    if s.Null? then "" else s.value
  }

  /** `string.Format("'{0}'", s)`. */
  function Quoted(s: Nullable<string>): (r: string)
    ensures |r| == |TextOf(s)| + 2
    ensures r[0] == '\'' && r[|r| - 1] == '\''
    ensures r[1..|r| - 1] == TextOf(s)
  {
    ['\''] + TextOf(s) + ['\'']
  }

  /** Removing the quotes gives back the text. */
  function Unquoted(q: string): string
    requires |q| >= 2
  {
    q[1..|q| - 1]
  }

  /** `Quote()`: nothing for a null sequence, otherwise each string in single
      quotes, one per element and in order. */
  method Quote(strings: Nullable<seq<Nullable<string>>>) returns (r: seq<string>)
    ensures strings.Null? ==> r == []
    ensures strings.NonNull? ==> |r| == |strings.value|
    ensures strings.NonNull? ==> forall i | 0 <= i < |r| :: |r[i]| >= 2 && Unquoted(r[i]) == TextOf(strings.value[i])
    ensures strings.NonNull? ==> forall i | 0 <= i < |r| :: r[i] == Quoted(strings.value[i])
  {
    if strings.Null? {
      return [];
    }
    var s := strings.value;
    r := [];
    for i := 0 to |s|
      invariant |r| == i
      invariant forall j | 0 <= j < i :: r[j] == Quoted(s[j])
    {
      r := r + [Quoted(s[i])];
    }
  }

  /** The texts of the strings, in order. */
  function Texts(s: seq<Nullable<string>>): (r: seq<string>)
    ensures |r| == |s|
    ensures forall i | 0 <= i < |s| :: r[i] == TextOf(s[i])
  {
    seq(|s|, i requires 0 <= i < |s| => TextOf(s[i]))
  }

  /** What the StringBuilder of `JoinWith` holds before its last character is
      removed: each text followed by the separator. */
  function Terminated(parts: seq<string>, c: char): string
    decreases |parts|
  {
    if parts == [] then "" else Terminated(parts[..|parts| - 1], c) + parts[|parts| - 1] + [c]
  }

  lemma {:induction false} TerminatedIsInterleaved(parts: seq<string>, c: char)
    requires |parts| >= 1
    ensures Terminated(parts, c) == Interleave(parts, [c]) + [c]
    decreases |parts|
  {
    var n := |parts|;
    if n == 1 {
      assert parts[..0] == [];
    } else {
      var init := parts[..n - 1];
      TerminatedIsInterleaved(init, c);
      assert parts == init + [parts[n - 1]];
      InterleaveSnoc(init, parts[n - 1], [c]);
    }
  }

  /** `JoinWith(c)`: null or empty input throws; otherwise the texts with `c`
      between consecutive ones, the trailing `c` removed. */
  method JoinWith(strings: Nullable<seq<Nullable<string>>>, prefix: char) returns (r: Result<string>)
    ensures EnumerableExtensions.IsNullOrEmpty(strings) ==> r == Throws(ArgumentException(""))
    ensures !EnumerableExtensions.IsNullOrEmpty(strings) ==> r == Ok(Interleave(Texts(strings.value), [prefix]))
  {
    if EnumerableExtensions.IsNullOrEmpty(strings) {
      return Throws(ArgumentException(""));
    }
    var s := strings.value;
    ghost var texts := Texts(s);
    var sb := "";
    for i := 0 to |s|
      invariant sb == Terminated(texts[..i], prefix)
    {
      assert texts[..i + 1][..i] == texts[..i];
      sb := sb + TextOf(s[i]) + [prefix];
    }
    assert texts[..|s|] == texts;
    TerminatedIsInterleaved(texts, prefix);
    r := Ok(sb[..|sb| - 1]);
  }

  /** JoinWith on n strings has length Σ|sᵢ| + n - 1, and when no string
      contains the separator, splitting on it gives the strings back. */
  lemma JoinWithLengthAndSplit(strings: seq<Nullable<string>>, prefix: char)
    requires |strings| >= 1
    ensures |Interleave(Texts(strings), [prefix])| == TotalLength(Texts(strings)) + |strings| - 1
    ensures Free(Texts(strings), prefix) ==> Split(Interleave(Texts(strings), [prefix]), prefix) == Texts(strings)
  {
    InterleaveLength(Texts(strings), [prefix]);
    if Free(Texts(strings), prefix) {
      SplitInterleave(Texts(strings), prefix);
    }
  }

  /** A UTF-16 code unit: a C# `char`. */
  type CodeUnit = x: int | 0 <= x < 0x1_0000

  /** The UTF-16 encoding of a text: the code units of a C# string, one for
      a character of the basic plane and a surrogate pair for one above it. */
  function CodeUnits(s: string): (r: seq<CodeUnit>)
    ensures |s| <= |r| <= 2 * |s|
    ensures (forall i | 0 <= i < |s| :: (s[i] as int) < 0x1_0000) ==> |r| == |s|
    decreases |s|
  {
    if s == [] then []
    else
      var rest := CodeUnits(s[1..]);
      assert forall i | 0 <= i < |s[1..]| :: s[1..][i] == s[i + 1];
      var c := s[0] as int;
      if c < 0x1_0000 then [c] + rest
      else [0xD800 + (c - 0x1_0000) / 0x400, 0xDC00 + (c - 0x1_0000) % 0x400] + rest
  }

  /** `GetBytes()`: the code units copied to bytes, two per unit, low byte first. */
  function GetBytes(str: Nullable<string>): (r: Result<seq<byte>>)
    ensures str.Null? ==> r == Throws(NullReferenceException)
    ensures str.NonNull? ==> r.Ok? && |r.value| == 2 * |CodeUnits(str.value)|
  {
    if str.Null? then Throws(NullReferenceException)
    else
      var units := CodeUnits(str.value);
      Ok(seq(2 * |units|, i requires 0 <= i < 2 * |units| =>
        if i % 2 == 0 then units[i / 2] % 256 else units[i / 2] / 256))
  }

  /** Reading the bytes back two at a time, as `Encoding.Unicode` does. */
  function UnitsOf(bytes: seq<byte>): (r: seq<CodeUnit>)
    requires |bytes| % 2 == 0
    ensures |r| == |bytes| / 2
  {
    seq(|bytes| / 2, i requires 0 <= i < |bytes| / 2 => (bytes[2 * i] as int) + 256 * (bytes[2 * i + 1] as int))
  }

  /** The bytes of GetBytes give back the code units of the string. */
  lemma GetBytesRoundTrip(str: string)
    ensures GetBytes(NonNull(str)).Ok?
    ensures UnitsOf(GetBytes(NonNull(str)).value) == CodeUnits(str)
  {
    var units := CodeUnits(str);
    var bytes := GetBytes(NonNull(str)).value;
    forall i | 0 <= i < |units| ensures UnitsOf(bytes)[i] == units[i] {
      assert bytes[2 * i] == units[i] % 256;
      assert bytes[2 * i + 1] == units[i] / 256;
    }
  }

  /** `FromMf()`: the empty date "01/01/1900" for null or empty text; other
      text goes through `Convert.ToDateTime` and the "dd/MM/yyyy" format,
      given here as `reformat`. */
  function FromMf(str: Nullable<string>, reformat: string -> Result<string>): (r: Result<string>)
    ensures IsNullOrEmpty(str) ==> r == Ok("01/01/1900")
    ensures !IsNullOrEmpty(str) ==> r == reformat(str.value)
  {
    if !IsNullOrEmpty(str) then reformat(str.value) else Ok("01/01/1900")
  }

  /** `ToMf()`: the empty date "1900-01-01" for null or empty text; other
      text goes through `Convert.ToDateTime` and the "yyyy-MM-dd" format. */
  function ToMf(str: Nullable<string>, reformat: string -> Result<string>): (r: Result<string>)
    ensures IsNullOrEmpty(str) ==> r == Ok("1900-01-01")
    ensures !IsNullOrEmpty(str) ==> r == reformat(str.value)
  {
    if !IsNullOrEmpty(str) then reformat(str.value) else Ok("1900-01-01")
  }
}
