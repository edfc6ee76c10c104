/** EnumerableExtensions: the sequence helpers of the common library. A C#
    `IEnumerable<T>` that may be null is a `Nullable<seq<T>>`, and the text an
    element appends to a StringBuilder is its `render` (its `ToString()`). */
module EnumerableExtensions {
  import opened Runtime
  import opened Guard
  import opened Text

  /** The index of the first element on which `action` throws, or |s| when it throws on none. */
  function FirstFailure<T>(s: seq<T>, action: T -> Outcome): (k: nat)
    ensures k <= |s|
    ensures forall j | 0 <= j < k :: action(s[j]).Completed?
    ensures k < |s| ==> action(s[k]).Raised?
    decreases |s|
  {
    if s == [] then 0
    else if action(s[0]).Raised? then 0
    else
      var k := FirstFailure(s[1..], action);
      assert forall j | 1 <= j < k + 1 :: s[j] == s[1..][j - 1];
      k + 1
  }

  /** `ForEach(action)`: the action is checked first, then the source; the
      action runs on each element in order, and an exception it throws
      ends the loop and reaches the caller. `applied` is the elements it ran on. */
  method ForEach<T>(source: Nullable<seq<T>>, action: Nullable<T -> Outcome>) returns (applied: seq<T>, outcome: Outcome)
    ensures action.Null? ==> applied == [] && outcome == Raised(ArgumentNullException("action"))
    ensures action.NonNull? && source.Null? ==> applied == [] && outcome == Raised(ArgumentException("source enumerable"))
    ensures action.NonNull? && source.NonNull? ==>
      var k := FirstFailure(source.value, action.value);
      && (k == |source.value| ==> applied == source.value && outcome == Completed)
      && (k < |source.value| ==> applied == source.value[..k + 1] && outcome == action.value(source.value[k]))
  {
    applied := [];
    var checkAction := NotNull(That("action", action));
    if checkAction.Throws? {
      return [], Raised(checkAction.error);
    }
    var checkSource := NotNullEnumerable(That("source enumerable", source));
    if checkSource.Throws? {
      return [], Raised(checkSource.error);
    }
    var s, f := source.value, action.value;
    ghost var k := FirstFailure(s, f);
    var i := 0;
    while i < |s|
      invariant 0 <= i <= k
      invariant applied == s[..i]
    {
      var o := f(s[i]);
      applied := applied + [s[i]];
      if o.Raised? {
        assert applied == s[..i + 1];
        return applied, o;
      }
      i := i + 1;
    }
    assert s[..i] == s;
    outcome := Completed;
  }

  /** `IsNullOrEmpty(this IEnumerable<T>)`: `Any()` walks to the first element. */
  predicate IsNullOrEmpty<T>(enumerable: Nullable<seq<T>>) {
    enumerable.Null? || !Any(enumerable.value)
  }

  /** `Enumerable.Any()`. */
  predicate Any<T>(s: seq<T>) {
    |s| > 0
  }

  /** `IsNullOrEmpty<T>(this T) where T : class, new()`: a null test only; C#
      prefers this overload for receivers of a concrete collection class. */
  predicate IsNullOrEmptyReference<T>(enumerable: Nullable<T>) {
    enumerable.Null?
  }

  /** The sequence overload is true exactly for null and for no elements;
      the reference overload agrees except on an empty, non-null collection. */
  lemma IsNullOrEmptyOverloads<T>(enumerable: Nullable<seq<T>>)
    ensures IsNullOrEmpty(enumerable) <==> enumerable.Null? || |enumerable.value| == 0
    ensures IsNullOrEmptyReference(enumerable) ==> IsNullOrEmpty(enumerable)
    ensures IsNullOrEmpty(enumerable) && !IsNullOrEmptyReference(enumerable) <==> enumerable == NonNull([])
  {
  }

  /** `items.Any(t.Contains)`, item by item: stops at the first item of `t`;
      `Contains` on a null `t` throws from the first item it is asked about. */
  function AnyContained<T(==)>(t: Nullable<seq<T>>, items: seq<T>): (r: Result<bool>)
    ensures |items| == 0 ==> r == Ok(false)
    ensures |items| > 0 && t.Null? ==> r == Throws(ArgumentNullException("source"))
    ensures t.NonNull? ==> r == Ok(exists i | 0 <= i < |items| :: items[i] in t.value)
    decreases |items|
  {
    if |items| == 0 then Ok(false)
    else if t.Null? then Throws(ArgumentNullException("source"))
    else if items[0] in t.value then Ok(true)
    else
      var r := AnyContained(t, items[1..]);
      assert forall i | 1 <= i < |items| :: items[i] == items[1..][i - 1];
      r
  }

  /** `ContainsAny`, both overloads (the `params T[]` one and the sequence one). */
  function ContainsAny<T(==)>(t: Nullable<seq<T>>, items: Nullable<seq<T>>): (r: Result<bool>)
    ensures items.Null? ==> r == Throws(ArgumentNullException("source"))
    ensures items.NonNull? ==> r == AnyContained(t, items.value)
  {
    if items.Null? then Throws(ArgumentNullException("source")) else AnyContained(t, items.value)
  }

  /** ContainsAny is true iff some item occurs in the source. */
  lemma ContainsAnyMeansSomeShared<T>(t: seq<T>, items: seq<T>)
    ensures ContainsAny(NonNull(t), NonNull(items)) == Ok(exists x | x in items :: x in t)
  {
    assert (exists x | x in items :: x in t) <==> exists i | 0 <= i < |items| :: items[i] in t;
  }

  /** What an element appends in `Join`: nothing when it equals `default(T)`. */
  function Piece<T(==)>(x: T, dflt: T, render: T -> string): string {
    if x == dflt then "" else render(x)
  }

  /** The pieces of all elements, in order. */
  function Pieces<T(==)>(s: seq<T>, dflt: T, render: T -> string): (r: seq<string>)
    ensures |r| == |s|
    ensures forall i | 0 <= i < |s| :: r[i] == (if s[i] == dflt then "" else render(s[i]))
  {
    seq(|s|, i requires 0 <= i < |s| => Piece(s[i], dflt, render))
  }

  /** The texts of all elements, in order. */
  function Rendered<T>(s: seq<T>, render: T -> string): (r: seq<string>)
    ensures |r| == |s|
    ensures forall i | 0 <= i < |s| :: r[i] == render(s[i])
  {
    seq(|s|, i requires 0 <= i < |s| => render(s[i]))
  }

  /** `Join(separator)`: null throws; empty gives ""; otherwise the first
      piece, then the separator and the piece of each later element. */
  method Join<T(==)>(values: Nullable<seq<T>>, separator: string, dflt: T, render: T -> string) returns (r: Result<string>)
    ensures values.Null? ==> r == Throws(ArgumentNullException("values"))
    ensures values.NonNull? ==> r == Ok(Interleave(Pieces(values.value, dflt, render), separator))
  {
    if values.Null? {
      return Throws(ArgumentNullException("values"));
    }
    var s := values.value;
    if |s| == 0 {
      return Ok("");
    }
    ghost var pieces := Pieces(s, dflt, render);
    var builder := "";
    if s[0] != dflt {
      builder := builder + render(s[0]);
    }
    var i := 1;
    while i < |s|
      invariant 1 <= i <= |s|
      invariant builder == Interleave(pieces[..i], separator)
    {
      InterleaveSnoc(pieces[..i], pieces[i], separator);
      assert pieces[..i + 1] == pieces[..i] + [pieces[i]];
      builder := builder + separator;
      if s[i] != dflt {
        builder := builder + render(s[i]);
      }
      i := i + 1;
    }
    assert pieces[..i] == pieces;
    r := Ok(builder);
  }

  /** `Join()`: `Join(",")`. */
  method JoinWithComma<T(==)>(values: Nullable<seq<T>>, dflt: T, render: T -> string) returns (r: Result<string>)
    ensures values.Null? ==> r == Throws(ArgumentNullException("values"))
    ensures values.NonNull? ==> r == Ok(Interleave(Pieces(values.value, dflt, render), ","))
  {
    r := Join(values, ",", dflt, render);
  }

  /** Joined on a one-character separator that no piece contains, n elements
      give exactly n - 1 separators, and splitting gives back the pieces. */
  lemma JoinSeparators<T>(values: seq<T>, c: char, dflt: T, render: T -> string)
    requires |values| >= 1 && Free(Pieces(values, dflt, render), c)
    ensures Occurrences(c, Interleave(Pieces(values, dflt, render), [c])) == |values| - 1
    ensures Split(Interleave(Pieces(values, dflt, render), [c]), c) == Pieces(values, dflt, render)
  {
    InterleaveSeparators(Pieces(values, dflt, render), c);
    SplitInterleave(Pieces(values, dflt, render), c);
  }

  /** An element equal to `default(T)` contributes no text: joining elements
      that are all default gives only the n - 1 separators. */
  lemma {:induction false} JoinDefaults<T>(values: seq<T>, separator: string, dflt: T, render: T -> string)
    requires |values| >= 1 && forall i | 0 <= i < |values| :: values[i] == dflt
    ensures |Interleave(Pieces(values, dflt, render), separator)| == (|values| - 1) * |separator|
  {
    var pieces := Pieces(values, dflt, render);
    InterleaveLength(pieces, separator);
    NoTextNoLength(pieces);
  }

  lemma {:induction false} NoTextNoLength(parts: seq<string>)
    requires forall i | 0 <= i < |parts| :: parts[i] == ""
    ensures TotalLength(parts) == 0
    decreases |parts|
  {
    if parts != [] {
      assert forall i | 0 <= i < |parts[1..]| :: parts[1..][i] == parts[i + 1];
      NoTextNoLength(parts[1..]);
    }
  }

  /** `ToString(separator)`: each element's text, with the separator before
      every element but the first; a null sequence fails in the `foreach`. */
  method ToString<T>(values: Nullable<seq<T>>, separator: string, render: T -> string) returns (r: Result<string>)
    ensures values.Null? ==> r == Throws(NullReferenceException)
    ensures values.NonNull? ==> r == Ok(Interleave(Rendered(values.value, render), separator))
  {
    if values.Null? {
      return Throws(NullReferenceException);
    }
    var s := values.value;
    ghost var texts := Rendered(s, render);
    var buffer := "";
    var needSeparator := false;
    var i := 0;
    while i < |s|
      invariant 0 <= i <= |s|
      invariant needSeparator <==> i > 0
      invariant buffer == Interleave(texts[..i], separator)
    {
      if i > 0 {
        InterleaveSnoc(texts[..i], texts[i], separator);
      } else {
        assert texts[..1] == [texts[0]];
      }
      assert texts[..i + 1] == texts[..i] + [texts[i]];
      if needSeparator {
        buffer := buffer + separator;
      }
      buffer := buffer + render(s[i]);
      needSeparator := true;
      i := i + 1;
    }
    assert texts[..i] == texts;
    r := Ok(buffer);
  }

  /** ToString puts separators only between elements: the text starts with
      the first element's text and ends with the last one's. */
  lemma ToStringBetweenOnly<T>(values: seq<T>, separator: string, render: T -> string)
    requires |values| >= 1
    ensures StartsWith(Interleave(Rendered(values, render), separator), render(values[0]))
    ensures var t := Interleave(Rendered(values, render), separator);
      var last := render(values[|values| - 1]);
      |last| <= |t| && t[|t| - |last|..] == last
  {
    InterleaveStartsWithFirst(Rendered(values, render), separator);
    InterleaveEndsWithLast(Rendered(values, render), separator);
  }

  /** Without default elements, Join and ToString give the same text. */
  lemma JoinIsToStringWithoutDefaults<T>(values: seq<T>, separator: string, dflt: T, render: T -> string)
    requires forall i | 0 <= i < |values| :: values[i] != dflt
    ensures Interleave(Pieces(values, dflt, render), separator) == Interleave(Rendered(values, render), separator)
  {
    assert Pieces(values, dflt, render) == Rendered(values, render);
  }

  /** `Partition(chunksize)` on a sequence: chunks of `size` taken from the front. */
  function Chunks<T>(s: seq<T>, size: nat): seq<seq<T>>
    requires size >= 1
    decreases |s|
  {
    if |s| == 0 then []
    else
      var k := if size < |s| then size else |s|;
      [s[..k]] + Chunks(s[k..], size)
  }

  /** The concatenation of the chunks. */
  function Flatten<T>(chunks: seq<seq<T>>): seq<T>
    decreases |chunks|
  {
    if chunks == [] then [] else chunks[0] + Flatten(chunks[1..])
  }

  /** Every chunk holds `size` elements except the last, which holds 1 to `size`. */
  predicate WellChunked<T>(chunks: seq<seq<T>>, size: nat) {
    && (forall i | 0 <= i < |chunks| - 1 :: |chunks[i]| == size)
    && (|chunks| > 0 ==> 1 <= |chunks[|chunks| - 1]| <= size)
  }

  /** The chunks concatenate to the source. */
  lemma {:induction false} ChunksFlatten<T>(s: seq<T>, size: nat)
    requires size >= 1
    ensures Flatten(Chunks(s, size)) == s
    decreases |s|
  {
    if |s| > 0 {
      var k := if size < |s| then size else |s|;
      ChunksFlatten(s[k..], size);
      assert Chunks(s, size)[1..] == Chunks(s[k..], size);
      assert s == s[..k] + s[k..];
    }
  }

  /** All chunks are full but the last, which is not empty. */
  lemma {:induction false} ChunksWellChunked<T>(s: seq<T>, size: nat)
    requires size >= 1
    ensures WellChunked(Chunks(s, size), size)
    ensures |s| == 0 <==> Chunks(s, size) == []
    decreases |s|
  {
    if |s| > 0 {
      var k := if size < |s| then size else |s|;
      var rest := Chunks(s[k..], size);
      ChunksWellChunked(s[k..], size);
      var c := Chunks(s, size);
      assert c == [s[..k]] + rest;
      if rest != [] {
        assert k == size;
        forall i | 0 <= i < |c| - 1 ensures |c[i]| == size {
          if i > 0 {
            assert c[i] == rest[i - 1];
          }
        }
        assert c[|c| - 1] == rest[|rest| - 1];
      }
    }
  }

  /** `Partition(chunksize)`: the size must be greater than 1 and the source
      not null; then chunks are taken until the source is exhausted. (The
      source is an iterator: the checks run at the first `MoveNext`.) */
  method Partition<T>(source: Nullable<seq<T>>, chunksize: int) returns (r: Result<seq<seq<T>>>)
    ensures chunksize <= 1 ==> r == Throws(ArgumentOutOfRangeException("chunksize"))
    ensures chunksize > 1 && source.Null? ==> r == Throws(ArgumentException("Source"))
    ensures chunksize > 1 && source.NonNull? ==> r == Ok(Chunks(source.value, chunksize))
  {
    var checkSize := GreaterThan(That("chunksize", chunksize), 1);
    if checkSize.Throws? {
      return Throws(checkSize.error);
    }
    var checkSource := NotNullEnumerable(That("Source", source));
    if checkSource.Throws? {
      return Throws(checkSource.error);
    }
    var rest := source.value;
    var chunks := [];
    while Any(rest)
      invariant chunks + Chunks(rest, chunksize) == Chunks(source.value, chunksize)
      decreases |rest|
    {
      var k := if chunksize < |rest| then chunksize else |rest|;
      chunks := chunks + [rest[..k]];
      rest := rest[k..];
    }
    assert rest == [];
    assert chunks + Chunks(rest, chunksize) == chunks + [];
    assert chunks == Chunks(source.value, chunksize);
    r := Ok(chunks);
  }

  /** A `Stack<T>`: its elements from the bottom to the top. */
  datatype Stack<T> = Stack(items: seq<T>)

  function Push<T>(st: Stack<T>, x: T): (r: Stack<T>)
    ensures |r.items| == |st.items| + 1 && r.items[..|st.items|] == st.items && r.items[|r.items| - 1] == x
  {
    Stack(st.items + [x])
  }

  /** The elements in the order successive `Pop` calls return them: top first. */
  function PopAll<T>(st: Stack<T>): seq<T>
    decreases |st.items|
  {
    if st.items == [] then []
    else [st.items[|st.items| - 1]] + PopAll(Stack(st.items[..|st.items| - 1]))
  }

  /** `Enumerable.Reverse`. */
  function Reverse<T>(s: seq<T>): (r: seq<T>)
    ensures |r| == |s|
    ensures forall i | 0 <= i < |s| :: r[i] == s[|s| - 1 - i]
    decreases |s|
  {
    if s == [] then [] else Reverse(s[1..]) + [s[0]]
  }

  lemma ReverseReverse<T>(s: seq<T>)
    ensures Reverse(Reverse(s)) == s
  {
  }

  /** Popping returns the elements in reverse push order. */
  lemma {:induction false} PopAllReverses<T>(st: Stack<T>)
    ensures PopAll(st) == Reverse(st.items)
    decreases |st.items|
  {
    if st.items != [] {
      PopAllReverses(Stack(st.items[..|st.items| - 1]));
    }
  }

  /** `ToStack`: pushes the reversed source, so the first element ends on
      top; `Reverse` on a null source throws. */
  method ToStack<T>(source: Nullable<seq<T>>) returns (r: Result<Stack<T>>)
    ensures source.Null? ==> r == Throws(ArgumentNullException("source"))
    ensures source.NonNull? ==> r == Ok(Stack(Reverse(source.value)))
  {
    if source.Null? {
      return Throws(ArgumentNullException("source"));
    }
    var reversed := Reverse(source.value);
    var stack := Stack([]);
    for i := 0 to |reversed|
      invariant stack.items == reversed[..i]
    {
      assert reversed[..i + 1] == reversed[..i] + [reversed[i]];
      stack := Push(stack, reversed[i]);
    }
    assert reversed[..|reversed|] == reversed;
    r := Ok(stack);
  }

  /** The stack built by ToStack has the first element on top, and popping
      it empty yields the source in its own order. */
  lemma ToStackPopsInSourceOrder<T>(source: seq<T>)
    ensures PopAll(Stack(Reverse(source))) == source
    ensures |source| > 0 ==> var items := Reverse(source); items[|items| - 1] == source[0]
  {
    PopAllReverses(Stack(Reverse(source)));
    ReverseReverse(source);
  }

  /** A `Queue<T>`: its elements from the head to the tail. */
  datatype Queue<T> = Queue(items: seq<T>)

  function Enqueue<T>(q: Queue<T>, x: T): (r: Queue<T>)
    ensures |r.items| == |q.items| + 1 && r.items[..|q.items|] == q.items && r.items[|r.items| - 1] == x
  {
    Queue(q.items + [x])
  }

  /** The elements in the order successive `Dequeue` calls return them: head first. */
  function DequeueAll<T>(q: Queue<T>): seq<T>
    decreases |q.items|
  {
    if q.items == [] then [] else [q.items[0]] + DequeueAll(Queue(q.items[1..]))
  }

  /** Dequeuing returns the elements in enqueue order. */
  lemma {:induction false} DequeueAllInOrder<T>(q: Queue<T>)
    ensures DequeueAll(q) == q.items
    decreases |q.items|
  {
    if q.items != [] {
      DequeueAllInOrder(Queue(q.items[1..]));
    }
  }

  /** `ToQueue`: enqueues the source in order; the `foreach` fails on null. */
  method ToQueue<T>(source: Nullable<seq<T>>) returns (r: Result<Queue<T>>)
    ensures source.Null? ==> r == Throws(NullReferenceException)
    ensures source.NonNull? ==> r.Ok? && DequeueAll(r.value) == source.value
  {
    if source.Null? {
      return Throws(NullReferenceException);
    }
    var s := source.value;
    var queue := Queue([]);
    for i := 0 to |s|
      invariant queue.items == s[..i]
    {
      assert s[..i + 1] == s[..i] + [s[i]];
      queue := Enqueue(queue, s[i]);
    }
    assert s[..|s|] == s;
    DequeueAllInOrder(queue);
    r := Ok(queue);
  }
}
