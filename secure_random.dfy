/** SecureRandomProvider: random numbers and strings cut from a shared byte
    buffer that a cryptographic generator fills. The generator is the oracle
    `entropy`: fill number `k` writes `entropy(k, i)` at position `i`. */
module SecureRandom {
  import opened Runtime

  /** `STRING_CHARSET`: lower-case letters, upper-case letters, digits, '-' and '_'. */
  const StringCharset: string := "abcdefghijklmnopqrstuvwxyz" + "ABCDEFGHIJKLMNOPQRSTUVWXYZ" + "1234567890-_"

  /** `DEFAULT_SHARED_BUFFER_LENGTH`. */
  const DefaultSharedBufferLength: int := 1024

  /** 256 to the power `n`: one more than the largest `n`-byte number. */
  function Pow256(n: nat): (p: nat)
    ensures p >= 1
  {
    if n == 0 then 1 else 256 * Pow256(n - 1)
  }

  lemma WordSizes()
    ensures Pow256(4) == TWO_32 && Pow256(8) == TWO_64
  {
    assert Pow256(1) == 256;
    assert Pow256(2) == 0x1_0000;
    assert Pow256(3) == 0x100_0000;
    assert Pow256(4) == 0x1_0000_0000;
    assert Pow256(5) == 0x100_0000_0000;
    assert Pow256(6) == 0x1_0000_0000_0000;
    assert Pow256(7) == 0x100_0000_0000_0000;
  }

  /** The number whose little-endian bytes are `bytes`. */
  function LittleEndian(bytes: seq<byte>): (v: nat)
    ensures v < Pow256(|bytes|)
    decreases |bytes|
  {
    if bytes == [] then 0 else bytes[0] + 256 * LittleEndian(bytes[1..])
  }

  /** `BitConverter.GetBytes`: the `width` little-endian bytes of `x`. */
  function BytesOf(x: nat, width: nat): (b: seq<byte>)
    ensures |b| == width
  {
    if width == 0 then [] else [x % 256] + BytesOf(x / 256, width - 1)
  }

  /** Reading the bytes of a number gives the number back. */
  lemma {:induction false} LittleEndianOfBytes(x: nat, width: nat)
    requires x < Pow256(width)
    ensures LittleEndian(BytesOf(x, width)) == x
    decreases width
  {
    if width > 0 {
      assert x / 256 < Pow256(width - 1);
      LittleEndianOfBytes(x / 256, width - 1);
      assert BytesOf(x, width)[1..] == BytesOf(x / 256, width - 1);
    }
  }

  /** The first byte decides whether the number is even. */
  lemma LittleEndianParity(bytes: seq<byte>)
    requires |bytes| >= 1
    ensures LittleEndian(bytes) % 2 == bytes[0] % 2
  {
    var high := LittleEndian(bytes[1..]);
    assert LittleEndian(bytes) == bytes[0] + 2 * (128 * high);
  }

  /** `BitConverter.ToUInt32` / `ToUInt64`: `width` bytes read little-endian
      at `startIndex`; a start outside the array, or too close to its end,
      throws. */
  function ReadUnsigned(value: seq<byte>, startIndex: int, width: nat): (r: Result<nat>)
    requires width >= 1
    ensures r.Ok? <==> 0 <= startIndex && startIndex + width <= |value|
    ensures r.Ok? ==> r.value < Pow256(width) && r.value == LittleEndian(value[startIndex..startIndex + width])
    ensures (startIndex < 0 || startIndex >= |value|) ==> r == Throws(ArgumentOutOfRangeException("startIndex"))
    ensures 0 <= startIndex < |value| < startIndex + width ==> r == Throws(ArgumentException("value"))
  {
    if startIndex < 0 || startIndex >= |value| then Throws(ArgumentOutOfRangeException("startIndex"))
    else if startIndex > |value| - width then Throws(ArgumentException("value"))
    else Ok(LittleEndian(value[startIndex..startIndex + width]))
  }

  /** `(int)raw >= 0 ? (int)raw : (int)raw * -1` in unchecked arithmetic:
      a non-negative reinterpretation is kept and a negative one negated,
      except that `int.MinValue` negates to itself. */
  function SignFold32(raw: UInt32): (r: Int32)
    ensures raw < 0x8000_0000 ==> r == raw
    ensures raw > 0x8000_0000 ==> r == TWO_32 - raw
    ensures r < 0 <==> raw == 0x8000_0000
    ensures r % 2 == raw % 2
  {
    var x := ToInt32(raw);
    if x >= 0 then x else ToInt32(x * -1)
  }

  /** The same fold for `long`. */
  function SignFold64(raw: UInt64): (r: Int64)
    ensures raw < 0x8000_0000_0000_0000 ==> r == raw
    ensures raw > 0x8000_0000_0000_0000 ==> r == TWO_64 - raw
    ensures r < 0 <==> raw == 0x8000_0000_0000_0000
  {
    var x := ToInt64(raw);
    if x >= 0 then x else ToInt64(x * -1)
  }

  /** The ranged `int`: `minimum + raw % (maximum - minimum)`, then the fold.
      For `maximum` up to 2^31 it lies in [minimum, maximum). */
  function Ranged32(minimum: UInt32, maximum: UInt32, raw: UInt32): (r: Int32)
    requires minimum < maximum
    ensures maximum <= 0x8000_0000 ==> minimum <= r < maximum
    ensures maximum > 0x8000_0000 ==> r >= 0 || r == -0x8000_0000
  {
    var difference := maximum - minimum;
    assert minimum + raw % difference < maximum;
    SignFold32(minimum + raw % difference)
  }

  /** The ranged `long`, which lies in [minimum, maximum) for `maximum` up to 2^63. */
  function Ranged64(minimum: UInt64, maximum: UInt64, raw: UInt64): (r: Int64)
    requires minimum < maximum
    ensures maximum <= 0x8000_0000_0000_0000 ==> minimum <= r < maximum
  {
    var difference := maximum - minimum;
    assert minimum + raw % difference < maximum;
    SignFold64(minimum + raw % difference)
  }

  /** `Enumerable.Distinct`: the first occurrence of each character, in order. */
  function Distinct(s: seq<char>): (r: seq<char>)
    ensures forall c :: c in r <==> c in s
    ensures forall i, j | 0 <= i < j < |r| :: r[i] != r[j]
    ensures |r| <= |s|
    decreases |s|
  {
    if s == [] then []
    else
      var d := Distinct(s[..|s| - 1]);
      assert forall c :: c in s <==> c in s[..|s| - 1] || c == s[|s| - 1];
      if s[|s| - 1] in d then d else d + [s[|s| - 1]]
  }

  /** The characters a string is drawn from: the distinct ones when duplicates are removed. */
  function Chosen(validCharacters: seq<char>, removeDuplicates: bool): (r: seq<char>)
    ensures forall c :: c in r <==> c in validCharacters
  {
    if removeDuplicates then Distinct(validCharacters) else validCharacters
  }

  /** The argument checks of `GenerateString(uint, char[], bool)`, in their
      order, and the characters the string is then drawn from. */
  function CheckCharacters(length: nat, validCharacters: Nullable<seq<char>>, removeDuplicates: bool): (r: Result<seq<char>>)
    ensures validCharacters.Null? ==> r == Throws(ArgumentNullException("source"))
    ensures validCharacters.NonNull? && |Distinct(validCharacters.value)| <= 1 ==> r == Throws(ArgumentException("validCharacters"))
    ensures validCharacters.NonNull? && |Distinct(validCharacters.value)| > 1 && length == 0 ==> r == Throws(ArgumentException("length"))
    ensures r.Ok? <==> validCharacters.NonNull? && |Distinct(validCharacters.value)| > 1 && length > 0
                       && 256 % |Chosen(validCharacters.value, removeDuplicates)| == 0
    ensures r.Ok? ==> r.value == Chosen(validCharacters.value, removeDuplicates)
    ensures r.Ok? ==> 2 <= |r.value| <= 256 && forall c :: c in r.value <==> c in validCharacters.value
    ensures r.Throws? && validCharacters.NonNull? && |Distinct(validCharacters.value)| > 1 && length > 0 ==> r == Throws(GeneralException)
  {
    if validCharacters.Null? then Throws(ArgumentNullException("source"))
    else
      var distinct := Distinct(validCharacters.value);
      if |distinct| <= 1 then Throws(ArgumentException("validCharacters"))
      else if length == 0 then Throws(ArgumentException("length"))
      else
        var chars := Chosen(validCharacters.value, removeDuplicates);
        if 256 % |chars| != 0 then Throws(GeneralException) else Ok(chars)
  }

  /** `GenerateString(int)`: a negative length is negated in unchecked
      arithmetic, then reinterpreted as `uint`. */
  function UnsignedLength(length: Int32): (r: UInt32)
    ensures length > -0x8000_0000 ==> r == if length < 0 then -length else length
    ensures length == -0x8000_0000 ==> r == 0x8000_0000
  {
    var folded := if length < 0 then ToInt32(length * -1) else length;
    folded % TWO_32
  }

  /** Two different characters survive `Distinct`. */
  lemma DistinctHasTwo(s: seq<char>, i: nat, j: nat)
    requires i < |s| && j < |s| && s[i] != s[j]
    ensures |Distinct(s)| >= 2
  {
    var d := Distinct(s);
    assert s[i] in d && s[j] in d;
  }

  /** A sequence whose characters are already pairwise different is its own `Distinct`. */
  lemma {:induction false} DistinctOfDistinct(s: seq<char>)
    requires forall i, j | 0 <= i < j < |s| :: s[i] != s[j]
    ensures Distinct(s) == s
    decreases |s|
  {
    if s != [] {
      var init := s[..|s| - 1];
      DistinctOfDistinct(init);
      assert s[|s| - 1] !in init by {
        forall k | 0 <= k < |init| ensures init[k] != s[|s| - 1] {
          assert init[k] == s[k];
        }
      }
      assert init + [s[|s| - 1]] == s;
    }
  }

  /** The position of a character in `STRING_CHARSET`. */
  function CharsetRank(c: char): int {
    if 'a' <= c <= 'z' then c as int - 'a' as int
    else if 'A' <= c <= 'Z' then 26 + c as int - 'A' as int
    else if '1' <= c <= '9' then 52 + c as int - '1' as int
    else if c == '0' then 61
    else if c == '-' then 62
    else 63
  }

  /** `STRING_CHARSET` holds 64 different characters. */
  lemma CharsetDistinct()
    ensures |StringCharset| == 64
    ensures forall i, j | 0 <= i < j < |StringCharset| :: StringCharset[i] != StringCharset[j]
  {
    var lower, upper, other := "abcdefghijklmnopqrstuvwxyz", "ABCDEFGHIJKLMNOPQRSTUVWXYZ", "1234567890-_";
    assert forall i | 0 <= i < |lower| :: CharsetRank(lower[i]) == i;
    assert forall i | 0 <= i < |upper| :: CharsetRank(upper[i]) == 26 + i;
    assert forall i | 0 <= i < |other| :: CharsetRank(other[i]) == 52 + i;
    assert StringCharset == lower + upper + other;
    assert forall i | 0 <= i < |StringCharset| :: CharsetRank(StringCharset[i]) == i;
  }

  /** `STRING_CHARSET` passes every check of `GenerateString` for a non-zero
      length: its 64 characters are distinct and 64 divides 256. */
  lemma CharsetPasses(length: nat)
    requires length > 0
    ensures CheckCharacters(length, NonNull(StringCharset), true) == Ok(StringCharset)
  {
    CharsetDistinct();
    DistinctOfDistinct(StringCharset);
  }

  /** Of the 256 byte values, how many below `n` leave remainder `j` modulo `size`. */
  function CountResidue(n: nat, size: nat, j: nat): nat
    requires size >= 1
  {
    if n == 0 then 0 else CountResidue(n - 1, size, j) + (if (n - 1) % size == j then 1 else 0)
  }

  lemma MulAtLeast(x: nat, size: nat)
    requires x >= 1
    ensures x * size >= size
  {
  }

  lemma Distribute(x: nat, y: nat, size: nat)
    requires x >= y
    ensures x * size - y * size == (x - y) * size
  {
  }

  /** A number written as a multiple of `size` plus a smaller remainder has that remainder. */
  lemma UniqueRemainder(a: nat, size: nat, p: nat, m: nat)
    requires size >= 1 && m < size && a == p * size + m
    ensures a % size == m
  {
    var p' := a / size;
    assert a == p' * size + a % size;
    if p' < p {
      Distribute(p, p', size);
      MulAtLeast(p - p', size);
      assert false;
    } else if p' > p {
      Distribute(p', p, size);
      MulAtLeast(p' - p, size);
      assert false;
    }
  }

  lemma {:induction false} CountResidueBlock(q: nat, size: nat, j: nat, m: nat)
    requires size >= 1 && j < size && m <= size
    ensures CountResidue(q * size + m, size, j) == CountResidue(q * size, size, j) + (if j < m then 1 else 0)
    decreases m
  {
    if m > 0 {
      CountResidueBlock(q, size, j, m - 1);
      UniqueRemainder(q * size + m - 1, size, q, m - 1);
    }
  }

  lemma {:induction false} CountResidueMultiple(q: nat, size: nat, j: nat)
    requires size >= 1 && j < size
    ensures CountResidue(q * size, size, j) == q
    decreases q
  {
    if q > 0 {
      CountResidueMultiple(q - 1, size, j);
      CountResidueBlock(q - 1, size, j, size);
      assert (q - 1) * size + size == q * size;
    }
  }

  /** What the divisibility check is for: when the number of characters
      divides 256, each character is chosen by exactly 256 / size byte values. */
  lemma EvenlyDrawn(size: nat, j: nat)
    requires size >= 1 && 256 % size == 0 && j < size
    ensures CountResidue(256, size, j) == 256 / size
  {
    assert (256 / size) * size == 256;
    CountResidueMultiple(256 / size, size, j);
  }

  /** The contents of generator fill number `k` for a buffer of `n` bytes. */
  function Fill(entropy: (nat, nat) -> byte, k: nat, n: nat): (r: seq<byte>)
    ensures |r| == n && forall i | 0 <= i < n :: r[i] == entropy(k, i)
  {
    seq(n, i requires 0 <= i < n => entropy(k, i))
  }

  /** The character the program as written draws in one step: four bytes of
      generator fill number `fill` (the whole `n`-byte buffer, refilled) read
      at `start`, reduced modulo the number of characters. */
  function DrawnAsWritten(entropy: (nat, nat) -> byte, fill: nat, n: nat, start: nat, chars: seq<char>): (c: char)
    requires start + 4 <= n && |chars| >= 1
    ensures c in chars
  {
    chars[LittleEndian(Fill(entropy, fill, n)[start..start + 4]) % |chars|]
  }

  class SecureRandomProvider {
    /** `_bufferLength`. */
    const bufferLength: int
    /** `_prng`. */
    const entropy: (nat, nat) -> byte
    /** `_sharedBuffer`: null until first used. */
    var sharedBuffer: array?<byte>
    /** `_currentBufferIndex`: the first byte not yet handed out. */
    var currentBufferIndex: nat
    /** How many times the generator has filled the buffer. */
    var fills: nat

    ghost predicate Valid()
      reads this
    {
      && bufferLength >= 1
      && (sharedBuffer == null ==> currentBufferIndex == 0)
      && (sharedBuffer != null ==> sharedBuffer.Length == bufferLength && currentBufferIndex <= bufferLength)
    }

    /** A request for `n` bytes refills the buffer: it is missing, or fewer
        than `n` bytes remain of a request the buffer can hold. */
    ghost predicate Refills(n: nat)
      reads this
    {
      sharedBuffer == null || (n <= bufferLength && sharedBuffer.Length - currentBufferIndex < n)
    }

    /** Where the bytes of a request for `n` start. */
    ghost function Start(n: nat): nat
      reads this
    {
      if Refills(n) then 0 else currentBufferIndex
    }

    /** The state after a request for `n` bytes that were then handed out:
        the buffer refilled or untouched, and the index past the `n` bytes. */
    twostate predicate Consumed(n: nat)
      reads this, sharedBuffer
    {
      && Valid()
      && sharedBuffer != null
      && currentBufferIndex == old(Start(n)) + n
      && (old(Refills(n)) ==> sharedBuffer[..] == Fill(entropy, old(fills), bufferLength) && fills == old(fills) + 1)
      && (!old(Refills(n)) ==> sharedBuffer == old(sharedBuffer) && sharedBuffer[..] == old(sharedBuffer[..]) && fills == old(fills))
    }

    /** `SecureRandomProvider(sharedBufferSize)`: a size below 1 becomes 1024. */
    constructor (sharedBufferSize: Int32, entropy: (nat, nat) -> byte)
      ensures Valid()
      ensures bufferLength == if sharedBufferSize < 1 then DefaultSharedBufferLength else sharedBufferSize
      ensures sharedBuffer == null && currentBufferIndex == 0 && fills == 0 && this.entropy == entropy
    {
      var size := sharedBufferSize;
      if size < 1 {
        size := DefaultSharedBufferLength;
      }
      this.entropy := entropy;
      bufferLength := size;
      sharedBuffer := null;
      currentBufferIndex := 0;
      fills := 0;
    }

    /** `SecureRandomProvider()`: a 1024-byte buffer. */
    constructor Default(entropy: (nat, nat) -> byte)
      ensures Valid() && bufferLength == DefaultSharedBufferLength
      ensures sharedBuffer == null && currentBufferIndex == 0 && fills == 0 && this.entropy == entropy
    {
      this.entropy := entropy;
      bufferLength := DefaultSharedBufferLength;
      sharedBuffer := null;
      currentBufferIndex := 0;
      fills := 0;
    }

    /** `_prng.GetBytes(_sharedBuffer)`: the next fill overwrites the whole buffer. */
    method GetBytes()
      requires sharedBuffer != null
      modifies this, sharedBuffer
      ensures sharedBuffer == old(sharedBuffer) && currentBufferIndex == old(currentBufferIndex)
      ensures sharedBuffer[..] == Fill(entropy, old(fills), sharedBuffer.Length) && fills == old(fills) + 1
    {
      var buffer := sharedBuffer;
      var k := fills;
      forall i | 0 <= i < buffer.Length {
        buffer[i] := entropy(k, i);
      }
      fills := fills + 1;
    }

    /** `InitSharedBuffer()`: allocates the buffer if it is missing or of the
        wrong length, fills it, and starts handing out from its first byte. */
    method InitSharedBuffer()
      requires Valid()
      modifies this, sharedBuffer
      ensures Valid() && sharedBuffer != null
      ensures sharedBuffer[..] == Fill(entropy, old(fills), bufferLength)
      ensures currentBufferIndex == 0 && fills == old(fills) + 1
      ensures old(sharedBuffer) == null ==> fresh(sharedBuffer)
      ensures old(sharedBuffer) != null ==> sharedBuffer == old(sharedBuffer)
    {
      if sharedBuffer == null || sharedBuffer.Length != bufferLength {
        sharedBuffer := new byte[bufferLength];
      }
      GetBytes();
      currentBufferIndex := 0;
    }

    /** `RequestBuffer(bytesRequired)`: the buffer is created on first use; a
        request larger than the buffer throws; a request larger than what
        remains refills the buffer. */
    method RequestBuffer(bytesRequired: nat) returns (o: Outcome)
      requires Valid()
      modifies this, sharedBuffer
      ensures Valid() && sharedBuffer != null
      ensures bytesRequired > bufferLength ==> o == Raised(ArgumentOutOfRangeException("bytesRequired"))
      ensures bytesRequired <= bufferLength ==> o == Completed && sharedBuffer.Length - currentBufferIndex >= bytesRequired
      ensures currentBufferIndex == old(Start(bytesRequired))
      ensures old(Refills(bytesRequired)) ==> sharedBuffer[..] == Fill(entropy, old(fills), bufferLength) && fills == old(fills) + 1
      ensures !old(Refills(bytesRequired)) ==> sharedBuffer == old(sharedBuffer) && sharedBuffer[..] == old(sharedBuffer[..]) && fills == old(fills)
      ensures old(sharedBuffer) == null ==> fresh(sharedBuffer)
      ensures old(sharedBuffer) != null ==> sharedBuffer == old(sharedBuffer)
    {
      if sharedBuffer == null {
        InitSharedBuffer();
      }
      if bytesRequired > bufferLength {
        return Raised(ArgumentOutOfRangeException("bytesRequired"));
      }
      if sharedBuffer.Length - currentBufferIndex < bytesRequired {
        InitSharedBuffer();
      }
      o := Completed;
    }

    /** `GenerateInt()`: four bytes read at the index, folded into a
        non-negative `int` (`int.MinValue` aside), and the index moved past them. */
    method GenerateInt() returns (r: Result<Int32>)
      requires Valid()
      modifies this, sharedBuffer
      ensures Valid()
      ensures bufferLength < 4 ==> r == Throws(ArgumentOutOfRangeException("bytesRequired"))
      ensures bufferLength >= 4 ==> Consumed(4)
      ensures bufferLength >= 4 ==> r == Ok(SignFold32(LittleEndian(sharedBuffer[currentBufferIndex - 4..currentBufferIndex])))
    {
      var o := RequestBuffer(4);
      if o.Raised? {
        return Throws(o.error);
      }
      WordSizes();
      var result := ReadUnsigned(sharedBuffer[..], currentBufferIndex, 4);
      currentBufferIndex := currentBufferIndex + 4;
      r := Ok(SignFold32(result.value));
    }

    /** `GenerateBool()`: whether `GenerateInt()` is even, which is whether
        the first byte read is even. */
    method GenerateBool() returns (r: Result<bool>)
      requires Valid()
      modifies this, sharedBuffer
      ensures Valid()
      ensures bufferLength < 4 ==> r == Throws(ArgumentOutOfRangeException("bytesRequired"))
      ensures bufferLength >= 4 ==> Consumed(4)
      ensures bufferLength >= 4 ==> r == Ok(sharedBuffer[currentBufferIndex - 4] % 2 == 0)
    {
      var n := GenerateInt();
      if n.Throws? {
        return Throws(n.error);
      }
      LittleEndianParity(sharedBuffer[currentBufferIndex - 4..currentBufferIndex]);
      r := Ok(n.value % 2 == 0);
    }

    /** `GenerateInt(minimum, maximum)`: the bounds are checked before any
        byte is taken. */
    method GenerateIntInRange(minimum: UInt32, maximum: UInt32) returns (r: Result<Int32>)
      requires Valid()
      modifies this, sharedBuffer
      ensures Valid()
      ensures minimum > maximum ==> r == Throws(ArgumentOutOfRangeException("minimum")) && unchanged(this)
      ensures minimum == maximum ==> r == Throws(ArgumentException("")) && unchanged(this)
      ensures minimum < maximum && bufferLength < 4 ==> r == Throws(ArgumentOutOfRangeException("bytesRequired"))
      ensures minimum < maximum && bufferLength >= 4 ==> Consumed(4)
      ensures minimum < maximum && bufferLength >= 4 ==>
        r == Ok(Ranged32(minimum, maximum, LittleEndian(sharedBuffer[currentBufferIndex - 4..currentBufferIndex])))
    {
      if minimum > maximum {
        return Throws(ArgumentOutOfRangeException("minimum"));
      }
      if minimum == maximum {
        return Throws(ArgumentException(""));
      }
      var o := RequestBuffer(4);
      if o.Raised? {
        return Throws(o.error);
      }
      WordSizes();
      var randomInteger := ReadUnsigned(sharedBuffer[..], currentBufferIndex, 4);
      currentBufferIndex := currentBufferIndex + 4;
      r := Ok(Ranged32(minimum, maximum, randomInteger.value));
    }

    /** `GenerateLong()`: eight bytes, folded into a non-negative `long`
        (`long.MinValue` aside). */
    method GenerateLong() returns (r: Result<Int64>)
      requires Valid()
      modifies this, sharedBuffer
      ensures Valid()
      ensures bufferLength < 8 ==> r == Throws(ArgumentOutOfRangeException("bytesRequired"))
      ensures bufferLength >= 8 ==> Consumed(8)
      ensures bufferLength >= 8 ==> r == Ok(SignFold64(LittleEndian(sharedBuffer[currentBufferIndex - 8..currentBufferIndex])))
    {
      var o := RequestBuffer(8);
      if o.Raised? {
        return Throws(o.error);
      }
      WordSizes();
      var result := ReadUnsigned(sharedBuffer[..], currentBufferIndex, 8);
      currentBufferIndex := currentBufferIndex + 8;
      r := Ok(SignFold64(result.value));
    }

    /** `GenerateLong(minimum, maximum)`. */
    method GenerateLongInRange(minimum: UInt64, maximum: UInt64) returns (r: Result<Int64>)
      requires Valid()
      modifies this, sharedBuffer
      ensures Valid()
      ensures minimum > maximum ==> r == Throws(ArgumentOutOfRangeException("minimum")) && unchanged(this)
      ensures minimum == maximum ==> r == Throws(ArgumentException("")) && unchanged(this)
      ensures minimum < maximum && bufferLength < 8 ==> r == Throws(ArgumentOutOfRangeException("bytesRequired"))
      ensures minimum < maximum && bufferLength >= 8 ==> Consumed(8)
      ensures minimum < maximum && bufferLength >= 8 ==>
        r == Ok(Ranged64(minimum, maximum, LittleEndian(sharedBuffer[currentBufferIndex - 8..currentBufferIndex])))
    {
      if minimum > maximum {
        return Throws(ArgumentOutOfRangeException("minimum"));
      }
      if minimum == maximum {
        return Throws(ArgumentException(""));
      }
      var o := RequestBuffer(8);
      if o.Raised? {
        return Throws(o.error);
      }
      WordSizes();
      var randomInteger := ReadUnsigned(sharedBuffer[..], currentBufferIndex, 8);
      currentBufferIndex := currentBufferIndex + 8;
      r := Ok(Ranged64(minimum, maximum, randomInteger.value));
    }

    /** `GenerateString(uint length, char[] validCharacters, bool)` as written.
        After the checks and `RequestBuffer(length)`, every character refills
        the whole buffer and reads four bytes at the unchanged index, so the
        string fails whenever fewer than four bytes remain at that index,
        however short it is; the index then advances by the length. */
    method GenerateStringFrom(length: UInt32, validCharacters: Nullable<seq<char>>, removeDuplicates: bool) returns (r: Result<string>)
      requires Valid()
      modifies this, sharedBuffer
      ensures Valid()
      ensures CheckCharacters(length, validCharacters, removeDuplicates).Throws? ==>
        r == Throws(CheckCharacters(length, validCharacters, removeDuplicates).error) && unchanged(this)
      ensures CheckCharacters(length, validCharacters, removeDuplicates).Ok? && length > bufferLength ==>
        r == Throws(ArgumentOutOfRangeException("bytesRequired"))
      ensures CheckCharacters(length, validCharacters, removeDuplicates).Ok? && length <= bufferLength ==>
        (r.Ok? <==> old(Start(length)) + 4 <= bufferLength)
      ensures CheckCharacters(length, validCharacters, removeDuplicates).Ok? && length <= bufferLength && r.Throws? ==>
        r.error == ArgumentException("value")
      ensures r.Ok? ==> |r.value| == length && currentBufferIndex == old(Start(length)) + length
      ensures r.Ok? ==> forall i | 0 <= i < |r.value| :: r.value[i] in validCharacters.value
      ensures r.Ok? ==> fills >= length && length <= currentBufferIndex && currentBufferIndex - length + 4 <= bufferLength
      ensures r.Ok? ==> forall i | 0 <= i < length ::
        r.value[i] == DrawnAsWritten(entropy, fills - length + i, bufferLength, currentBufferIndex - length, Chosen(validCharacters.value, removeDuplicates))
      ensures old(sharedBuffer) != null ==> sharedBuffer == old(sharedBuffer)
      ensures old(sharedBuffer) == null ==> sharedBuffer == null || fresh(sharedBuffer)
      ensures r.Ok? ==> sharedBuffer != null
    {
      var checked := CheckCharacters(length, validCharacters, removeDuplicates);
      if checked.Throws? {
        return Throws(checked.error);
      }
      var chars := checked.value;
      var validCharactersLength := |chars|;
      var o := RequestBuffer(length);
      if o.Raised? {
        return Throws(o.error);
      }
      var start := currentBufferIndex;
      r := DrawCharacters(length, chars);
      if r.Ok? {
        currentBufferIndex := currentBufferIndex + length;
      }
    }

    /** The loop of `GenerateString(uint, char[], bool)` as written: for each of
        `count` characters the generator refills the whole buffer and four
        bytes are read at the unchanged index. */
    method DrawCharacters(count: nat, chars: seq<char>) returns (r: Result<string>)
      requires Valid() && sharedBuffer != null && |chars| >= 1
      requires currentBufferIndex + count <= bufferLength
      modifies this, sharedBuffer
      ensures Valid() && sharedBuffer == old(sharedBuffer) && currentBufferIndex == old(currentBufferIndex)
      ensures r.Ok? <==> count == 0 || currentBufferIndex + 4 <= bufferLength
      ensures r.Throws? ==> r.error == ArgumentException("value")
      ensures r.Ok? ==> |r.value| == count && fills == old(fills) + count
      ensures r.Ok? ==> forall i | 0 <= i < count ::
        r.value[i] == DrawnAsWritten(entropy, old(fills) + i, bufferLength, currentBufferIndex, chars)
    {
      var builder := "";
      var remaining := count;
      while remaining > 0
        invariant Valid() && sharedBuffer == old(sharedBuffer) && currentBufferIndex == old(currentBufferIndex)
        invariant 0 <= remaining <= count
        invariant remaining < count ==> currentBufferIndex + 4 <= bufferLength
        invariant |builder| == count - remaining
        invariant fills == old(fills) + |builder|
        invariant forall i | 0 <= i < |builder| ::
          builder[i] == DrawnAsWritten(entropy, old(fills) + i, bufferLength, currentBufferIndex, chars)
        decreases remaining
      {
        GetBytes();
        assert sharedBuffer[..] == Fill(entropy, fills - 1, bufferLength);
        var index := ReadUnsigned(sharedBuffer[..], currentBufferIndex, 4);
        if index.Throws? {
          return Throws(index.error);
        }
        builder := builder + [chars[index.value % |chars|]];
        remaining := remaining - 1;
      }
      r := Ok(builder);
    }

    /** `GenerateString(uint length, char[] validCharacters, bool)` as it is
        evidently meant: the bytes reserved by `RequestBuffer(length)` are
        used one per character, each mapped onto the characters by its
        remainder, and the index advances past them. */
    method GenerateStringFromIntended(length: UInt32, validCharacters: Nullable<seq<char>>, removeDuplicates: bool) returns (r: Result<string>)
      requires Valid()
      modifies this, sharedBuffer
      ensures Valid()
      ensures CheckCharacters(length, validCharacters, removeDuplicates).Throws? ==>
        r == Throws(CheckCharacters(length, validCharacters, removeDuplicates).error) && unchanged(this)
      ensures CheckCharacters(length, validCharacters, removeDuplicates).Ok? && length > bufferLength ==>
        r == Throws(ArgumentOutOfRangeException("bytesRequired"))
      ensures CheckCharacters(length, validCharacters, removeDuplicates).Ok? && length <= bufferLength ==>
        && r.Ok? && |r.value| == length
        && Consumed(length)
        && var chars := CheckCharacters(length, validCharacters, removeDuplicates).value;
           forall i | 0 <= i < length :: r.value[i] == chars[sharedBuffer[old(Start(length)) + i] as int % |chars|]
      ensures r.Ok? ==> forall i | 0 <= i < |r.value| :: r.value[i] in validCharacters.value
      ensures old(sharedBuffer) != null ==> sharedBuffer == old(sharedBuffer)
      ensures old(sharedBuffer) == null ==> sharedBuffer == null || fresh(sharedBuffer)
      ensures r.Ok? ==> sharedBuffer != null
    {
      var checked := CheckCharacters(length, validCharacters, removeDuplicates);
      if checked.Throws? {
        return Throws(checked.error);
      }
      var chars := checked.value;
      var o := RequestBuffer(length);
      if o.Raised? {
        return Throws(o.error);
      }
      var start := currentBufferIndex;
      var builder := "";
      for i := 0 to length
        invariant |builder| == i
        invariant forall j | 0 <= j < i :: builder[j] == chars[sharedBuffer[start + j] as int % |chars|]
      {
        builder := builder + [chars[sharedBuffer[start + i] as int % |chars|]];
      }
      currentBufferIndex := currentBufferIndex + length;
      r := Ok(builder);
    }

    /** `GenerateString(int length, char[] validCharacters, bool)`. */
    method GenerateStringWith(length: Int32, validCharacters: Nullable<seq<char>>, removeDuplicates: bool) returns (r: Result<string>)
      requires Valid()
      modifies this, sharedBuffer
      ensures Valid()
      ensures CheckCharacters(UnsignedLength(length), validCharacters, removeDuplicates).Throws? ==>
        r == Throws(CheckCharacters(UnsignedLength(length), validCharacters, removeDuplicates).error) && unchanged(this)
      ensures CheckCharacters(UnsignedLength(length), validCharacters, removeDuplicates).Ok? && UnsignedLength(length) > bufferLength ==>
        r == Throws(ArgumentOutOfRangeException("bytesRequired"))
      ensures CheckCharacters(UnsignedLength(length), validCharacters, removeDuplicates).Ok? && UnsignedLength(length) <= bufferLength ==>
        (r.Ok? <==> old(Start(UnsignedLength(length))) + 4 <= bufferLength)
      ensures r.Ok? ==> |r.value| == UnsignedLength(length) && currentBufferIndex == old(Start(UnsignedLength(length))) + UnsignedLength(length)
      ensures r.Ok? ==> forall i | 0 <= i < |r.value| :: r.value[i] in validCharacters.value
    {
      r := GenerateStringFrom(UnsignedLength(length), validCharacters, removeDuplicates);
    }

    /** `GenerateString(uint length)`: drawn from `STRING_CHARSET`, duplicates removed. */
    method GenerateStringUnsigned(length: UInt32) returns (r: Result<string>)
      requires Valid()
      modifies this, sharedBuffer
      ensures Valid()
      ensures length == 0 ==> r == Throws(ArgumentException("length")) && unchanged(this)
      ensures length != 0 && length <= bufferLength ==>
        (r.Ok? <==> old(Start(length)) + 4 <= bufferLength)
      ensures length > bufferLength ==>
        r == Throws(ArgumentOutOfRangeException("bytesRequired"))
      ensures r.Ok? ==> |r.value| == length && currentBufferIndex == old(Start(length)) + length
      ensures r.Ok? ==> forall i | 0 <= i < |r.value| :: r.value[i] in StringCharset
    {
      assert StringCharset[0] == 'a' && StringCharset[1] == 'b';
      DistinctHasTwo(StringCharset, 0, 1);
      if length != 0 {
        CharsetPasses(length);
      }
      r := GenerateStringFrom(length, NonNull(StringCharset), true);
    }

    /** `GenerateString(int length)`: drawn from `STRING_CHARSET`. */
    method GenerateString(length: Int32) returns (r: Result<string>)
      requires Valid()
      modifies this, sharedBuffer
      ensures Valid()
      ensures length == 0 ==> r == Throws(ArgumentException("length")) && unchanged(this)
      ensures length != 0 && UnsignedLength(length) <= bufferLength ==>
        (r.Ok? <==> old(Start(UnsignedLength(length))) + 4 <= bufferLength)
      ensures UnsignedLength(length) > bufferLength ==>
        r == Throws(ArgumentOutOfRangeException("bytesRequired"))
      ensures r.Ok? ==> |r.value| == UnsignedLength(length) && currentBufferIndex == old(Start(UnsignedLength(length))) + UnsignedLength(length)
      ensures r.Ok? ==> forall i | 0 <= i < |r.value| :: r.value[i] in StringCharset
    {
      assert StringCharset[0] == 'a' && StringCharset[1] == 'b';
      DistinctHasTwo(StringCharset, 0, 1);
      if length != 0 {
        CharsetPasses(UnsignedLength(length));
      }
      r := GenerateStringFrom(UnsignedLength(length), NonNull(StringCharset), true);
    }
  }

  /** As written, with the default buffer: a 1022-character string leaves two
      bytes, and a 2-character string, which fits in them, then throws. */
  method ShortRemainderFails(entropy: (nat, nat) -> byte) returns (first: Result<string>, second: Result<string>)
    ensures first.Ok? && |first.value| == 1022
    ensures second == Throws(ArgumentException("value"))
  {
    var provider := new SecureRandomProvider.Default(entropy);
    assert Distinct("ab") == "ab" by {
      assert "ab"[..1] == "a" && "a"[..0] == "";
    }
    first := provider.GenerateStringFrom(1022, NonNull("ab"), true);
    second := provider.GenerateStringFrom(2, NonNull("ab"), true);
  }

  /** The intended version hands out the same two remaining bytes. */
  method ShortRemainderIntended(entropy: (nat, nat) -> byte) returns (first: Result<string>, second: Result<string>)
    ensures first.Ok? && |first.value| == 1022
    ensures second.Ok? && |second.value| == 2
  {
    var provider := new SecureRandomProvider.Default(entropy);
    assert Distinct("ab") == "ab" by {
      assert "ab"[..1] == "a" && "a"[..0] == "";
    }
    first := provider.GenerateStringFromIntended(1022, NonNull("ab"), true);
    second := provider.GenerateStringFromIntended(2, NonNull("ab"), true);
  }
}
