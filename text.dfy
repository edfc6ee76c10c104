/** Text assembled from parts: the separated concatenation that the joining
    helpers build with a StringBuilder, and `string.Split`, which undoes it
    when the separator occurs in no part. */
module Text {
  import opened Runtime

  /** The parts with `sep` between consecutive ones, none before the first
      and none after the last. */
  function Interleave(parts: seq<string>, sep: string): string
    decreases |parts|
  {
    if |parts| == 0 then ""
    else if |parts| == 1 then parts[0]
    else parts[0] + sep + Interleave(parts[1..], sep)
  }

  /** The summed lengths of the parts. */
  function TotalLength(parts: seq<string>): nat
    decreases |parts|
  {
    if parts == [] then 0 else |parts[0]| + TotalLength(parts[1..])
  }

  /** How many times `c` occurs in `s`. */
  function Occurrences(c: char, s: string): (n: nat)
    ensures n == 0 <==> c !in s
    ensures n <= |s|
    decreases |s|
  {
    if s == [] then 0
    else
      assert forall x :: x in s <==> x == s[0] || x in s[1..];
      (if s[0] == c then 1 else 0) + Occurrences(c, s[1..])
  }

  /** `s.Split(c)`: the runs of `s` between occurrences of `c`, one more than there are occurrences. */
  function Split(s: string, c: char): (r: seq<string>)
    ensures |r| == Occurrences(c, s) + 1
    decreases |s|
  {
    if s == [] then [""]
    else if s[0] == c then [""] + Split(s[1..], c)
    else
      var rest := Split(s[1..], c);
      [[s[0]] + rest[0]] + rest[1..]
  }

  /** No part contains `c`. */
  predicate Free(parts: seq<string>, c: char) {
    forall i | 0 <= i < |parts| :: c !in parts[i]
  }

  /** Adding a part at the end adds a separator and the part. */
  lemma {:induction false} InterleaveSnoc(parts: seq<string>, p: string, sep: string)
    requires |parts| >= 1
    ensures Interleave(parts + [p], sep) == Interleave(parts, sep) + sep + p
    decreases |parts|
  {
    if |parts| > 1 {
      assert (parts + [p])[1..] == parts[1..] + [p];
      InterleaveSnoc(parts[1..], p, sep);
    }
  }

  lemma {:induction false} TotalLengthSnoc(parts: seq<string>, p: string)
    ensures TotalLength(parts + [p]) == TotalLength(parts) + |p|
    decreases |parts|
  {
    if parts != [] {
      assert (parts + [p])[1..] == parts[1..] + [p];
      TotalLengthSnoc(parts[1..], p);
    }
  }

  /** n parts and n - 1 separators: the length of the joined text. */
  lemma {:induction false} InterleaveLength(parts: seq<string>, sep: string)
    requires |parts| >= 1
    ensures |Interleave(parts, sep)| == TotalLength(parts) + (|parts| - 1) * |sep|
    decreases |parts|
  {
    if |parts| > 1 {
      InterleaveLength(parts[1..], sep);
      assert (|parts| - 1) * |sep| == (|parts[1..]| - 1) * |sep| + |sep|;
    }
  }

  lemma {:induction false} OccurrencesConcat(c: char, a: string, b: string)
    ensures Occurrences(c, a + b) == Occurrences(c, a) + Occurrences(c, b)
    decreases |a|
  {
    if a != [] {
      assert (a + b)[1..] == a[1..] + b;
      OccurrencesConcat(c, a[1..], b);
    } else {
      assert a + b == b;
    }
  }

  /** Joined with a one-character separator that no part contains, the text
      holds exactly n - 1 separators. */
  lemma {:induction false} InterleaveSeparators(parts: seq<string>, c: char)
    requires |parts| >= 1 && Free(parts, c)
    ensures Occurrences(c, Interleave(parts, [c])) == |parts| - 1
    decreases |parts|
  {
    if |parts| > 1 {
      InterleaveSeparators(parts[1..], c);
      OccurrencesConcat(c, parts[0], [c]);
      OccurrencesConcat(c, parts[0] + [c], Interleave(parts[1..], [c]));
      assert Occurrences(c, [c]) == 1 by {
        assert [c][1..] == [];
      }
    } else {
      assert c !in parts[0];
    }
  }

  /** A prefix free of `c` extends the first run of the split. */
  lemma {:induction false} SplitFreePrefix(p: string, s: string, c: char)
    requires c !in p
    ensures Split(p + s, c) == [p + Split(s, c)[0]] + Split(s, c)[1..]
    decreases |p|
  {
    if p != [] {
      assert (p + s)[0] == p[0] && (p + s)[1..] == p[1..] + s;
      assert p[0] in p;
      assert c !in p[1..] by {
        forall x | x in p[1..] ensures x in p { }
      }
      SplitFreePrefix(p[1..], s, c);
      assert [p[0]] + (p[1..] + Split(s, c)[0]) == p + Split(s, c)[0];
    } else {
      var r := Split(s, c);
      assert p + s == s && p + r[0] == r[0];
      assert r == [r[0]] + r[1..];
    }
  }

  /** Splitting the joined text on a separator that no part contains gives back the parts. */
  lemma {:induction false} SplitInterleave(parts: seq<string>, c: char)
    requires |parts| >= 1 && Free(parts, c)
    ensures Split(Interleave(parts, [c]), c) == parts
    decreases |parts|
  {
    assert c !in parts[0];
    if |parts| == 1 {
      SplitFreePrefix(parts[0], "", c);
      assert parts[0] + "" == parts[0];
    } else {
      var rest := Interleave(parts[1..], [c]);
      assert Free(parts[1..], c) by {
        forall i | 0 <= i < |parts[1..]| ensures c !in parts[1..][i] {
          assert parts[1..][i] == parts[i + 1];
        }
      }
      SplitInterleave(parts[1..], c);
      assert Interleave(parts, [c]) == parts[0] + ([c] + rest);
      SplitFreePrefix(parts[0], [c] + rest, c);
      assert ([c] + rest)[0] == c && ([c] + rest)[1..] == rest;
      assert Split([c] + rest, c) == [""] + parts[1..];
      assert parts[0] + "" == parts[0];
      assert parts == [parts[0]] + parts[1..];
    }
  }

  /** No separator leads: the joined text starts with the first part. */
  lemma InterleaveStartsWithFirst(parts: seq<string>, sep: string)
    requires |parts| >= 1
    ensures StartsWith(Interleave(parts, sep), parts[0])
  {
    var t := Interleave(parts, sep);
    if |parts| > 1 {
      assert t == parts[0] + (sep + Interleave(parts[1..], sep));
    }
    assert t[..|parts[0]|] == parts[0];
  }

  /** No separator trails: the joined text ends with the last part. */
  lemma InterleaveEndsWithLast(parts: seq<string>, sep: string)
    requires |parts| >= 1
    ensures |parts[|parts| - 1]| <= |Interleave(parts, sep)|
    ensures Interleave(parts, sep)[|Interleave(parts, sep)| - |parts[|parts| - 1]|..] == parts[|parts| - 1]
  {
    var n := |parts|;
    var last := parts[n - 1];
    if n > 1 {
      assert parts == parts[..n - 1] + [last];
      InterleaveSnoc(parts[..n - 1], last, sep);
      var t := Interleave(parts, sep);
      assert t == (Interleave(parts[..n - 1], sep) + sep) + last;
    }
  }
}
