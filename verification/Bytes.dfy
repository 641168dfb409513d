/**
 Go strings and byte slices, as sequences of bytes: the bytewise order Go's `<` uses on
 strings, sorting under that order, and joining and splitting at a separator byte.
 */
module Bytes {
  import opened Wrappers

  type byte = x: int | 0 <= x < 256
  type bytes = seq<byte>

  predicate IsAscii(c: char) {
    c < 128 as char
  }

  function Code(c: char): byte
    requires IsAscii(c)
  {
    c as int
  }

  /** The bytes of an ASCII literal. */
  function Ascii(s: string): bytes
    requires forall i :: 0 <= i < |s| ==> IsAscii(s[i])
  {
    seq(|s|, i requires 0 <= i < |s| && IsAscii(s[i]) => Code(s[i]))
  }

  predicate IsDigit(b: byte) {
    0x30 <= b <= 0x39
  }

  /** The value of a decimal digit. */
  function DigitValue(b: byte): int {
    var n: int := b;
    n - 0x30
  }

  predicate AllDigits(d: bytes) {
    forall i :: 0 <= i < |d| ==> IsDigit(d[i])
  }

  /** The number a text of digits spells. */
  function DecimalValue(d: bytes): int {
    if d == [] then 0 else DecimalValue(d[..|d| - 1]) * 10 + DigitValue(d[|d| - 1])
  }

  // ----- the bytewise order

  /** `a <= b` as Go compares strings: bytewise, a proper prefix first. */
  predicate LexLeq(a: bytes, b: bytes) {
    a == [] || (b != [] && (a[0] < b[0] || (a[0] == b[0] && LexLeq(a[1..], b[1..]))))
  }

  lemma {:induction false} LexTotal(a: bytes, b: bytes)
    ensures LexLeq(a, b) || LexLeq(b, a)
  {
    if a != [] && b != [] {
      LexTotal(a[1..], b[1..]);
    }
  }

  lemma {:induction false} LexAntisymmetric(a: bytes, b: bytes)
    requires LexLeq(a, b) && LexLeq(b, a)
    ensures a == b
  {
    if a != [] {
      LexAntisymmetric(a[1..], b[1..]);
      assert a == [a[0]] + a[1..] && b == [b[0]] + b[1..];
    }
  }

  lemma {:induction false} LexTransitive(a: bytes, b: bytes, c: bytes)
    requires LexLeq(a, b) && LexLeq(b, c)
    ensures LexLeq(a, c)
  {
    if a != [] && a[0] == b[0] == c[0] {
      LexTransitive(a[1..], b[1..], c[1..]);
    }
  }

  /** What that order is: `a` is a prefix of `b`, or has the smaller byte where they first differ. */
  ghost predicate PrefixOrSmaller(a: bytes, b: bytes) {
    a <= b || exists k :: 0 <= k < |a| && k < |b| && a[..k] == b[..k] && a[k] < b[k]
  }

  lemma {:induction false} LexLeqExactly(a: bytes, b: bytes)
    ensures LexLeq(a, b) <==> PrefixOrSmaller(a, b)
  {
    if a != [] && b != [] && a[0] == b[0] {
      LexLeqExactly(a[1..], b[1..]);
      TailsDecide(a, b);
    } else if a != [] && b != [] && a[0] < b[0] {
      assert a[..0] == b[..0];
    }
  }

  lemma FirstDifference(a: bytes, b: bytes, k: nat)
    requires a != [] && b != [] && a[0] == b[0] && k + 1 < |a| && k + 1 < |b|
    ensures a[1..][..k] == b[1..][..k] <==> a[..k + 1] == b[..k + 1]
  {
    assert a[..k + 1] == [a[0]] + a[1..][..k] && b[..k + 1] == [b[0]] + b[1..][..k];
    assert a[..k + 1][1..] == a[1..][..k] && b[..k + 1][1..] == b[1..][..k];
  }

  lemma TailsDecide(a: bytes, b: bytes)
    requires a != [] && b != [] && a[0] == b[0]
    ensures PrefixOrSmaller(a, b) <==> PrefixOrSmaller(a[1..], b[1..])
  {
    var x, y := a[1..], b[1..];
    assert a == [a[0]] + x && b == [b[0]] + y;
    if PrefixOrSmaller(x, y) && !(x <= y) {
      var k :| 0 <= k < |x| && k < |y| && x[..k] == y[..k] && x[k] < y[k];
      FirstDifference(a, b, k);
      assert a[k + 1] < b[k + 1];
    }
    if PrefixOrSmaller(a, b) && !(a <= b) {
      var k :| 0 <= k < |a| && k < |b| && a[..k] == b[..k] && a[k] < b[k];
      FirstDifference(a, b, k - 1);
      assert x[k - 1] < y[k - 1];
    }
  }

  // ----- sorting

  ghost predicate Sorted(s: seq<bytes>) {
    forall i, j :: 0 <= i < j < |s| ==> LexLeq(s[i], s[j])
  }

  ghost predicate Distinct<T(!new)>(s: seq<T>) {
    forall i, j :: 0 <= i < j < |s| ==> s[i] != s[j]
  }

  function Inserted(x: bytes, s: seq<bytes>): (r: seq<bytes>)
    ensures multiset(r) == multiset(s) + multiset{x}
  {
    if s == [] || LexLeq(x, s[0]) then
      [x] + s
    else
      assert s == [s[0]] + s[1..];
      [s[0]] + Inserted(x, s[1..])
  }

  /** The sorted arrangement of `s`; by `SortUnique` there is only one. */
  function Sort(s: seq<bytes>): (r: seq<bytes>)
    ensures multiset(r) == multiset(s)
    ensures |r| == |s|
  {
    if s == [] then
      []
    else
      assert s == [s[0]] + s[1..];
      var r := Inserted(s[0], Sort(s[1..]));
      assert multiset(r) == multiset(s);
      SameMultisetSameLength(r, s);
      r
  }

  lemma SameMultisetSameLength<T>(a: seq<T>, b: seq<T>)
    requires multiset(a) == multiset(b)
    ensures |a| == |b|
  {
    assert |multiset(a)| == |a| && |multiset(b)| == |b|;
  }

  lemma SameMultisetSameElements<T>(a: seq<T>, b: seq<T>, x: T)
    requires multiset(a) == multiset(b)
    ensures x in a <==> x in b
  {
    assert x in a <==> x in multiset(a);
    assert x in b <==> x in multiset(b);
  }

  lemma {:induction false} InsertedIsSorted(x: bytes, s: seq<bytes>)
    requires Sorted(s)
    ensures Sorted(Inserted(x, s))
  {
    if s == [] {
    } else if LexLeq(x, s[0]) {
      forall j | 0 <= j < |s| ensures LexLeq(x, s[j]) {
        if j > 0 { LexTransitive(x, s[0], s[j]); }
      }
    } else {
      InsertedIsSorted(x, s[1..]);
      LexTotal(x, s[0]);
      var t := Inserted(x, s[1..]);
      forall j | 0 <= j < |t| ensures LexLeq(s[0], t[j]) {
        assert t[j] in multiset(t);
        assert t[j] == x || t[j] in multiset(s[1..]);
      }
    }
  }

  lemma {:induction false} SortIsSorted(s: seq<bytes>)
    ensures Sorted(Sort(s))
  {
    if s != [] {
      SortIsSorted(s[1..]);
      InsertedIsSorted(s[0], Sort(s[1..]));
    }
  }

  lemma LeastComesFirst(a: seq<bytes>, b: seq<bytes>)
    requires Sorted(a) && Sorted(b) && multiset(a) == multiset(b) && a != [] && b != []
    ensures LexLeq(a[0], b[0])
  {
    var j := PermutationSource(a, b, 0);
    if j == 0 { LexTotal(a[0], a[0]); }
  }

  lemma WithoutFirst<T>(a: seq<T>)
    requires a != []
    ensures multiset(a[1..]) == multiset(a) - multiset{a[0]}
  {
    assert a == [a[0]] + a[1..];
  }

  /** A sequence has exactly one sorted arrangement. */
  lemma {:induction false} SortUnique(a: seq<bytes>, b: seq<bytes>)
    requires Sorted(a) && Sorted(b) && multiset(a) == multiset(b)
    ensures a == b
  {
    SameMultisetSameLength(a, b);
    if a != [] {
      LeastComesFirst(a, b);
      LeastComesFirst(b, a);
      LexAntisymmetric(a[0], b[0]);
      WithoutFirst(a);
      WithoutFirst(b);
      SortUnique(a[1..], b[1..]);
      assert a == [a[0]] + a[1..] && b == [b[0]] + b[1..];
    }
  }

  /** Sorting forgets the order of its input, and nothing else. */
  lemma SortIgnoresOrder(a: seq<bytes>, b: seq<bytes>)
    ensures Sort(a) == Sort(b) <==> multiset(a) == multiset(b)
  {
    if multiset(a) == multiset(b) {
      SortIsSorted(a);
      SortIsSorted(b);
      SortUnique(Sort(a), Sort(b));
    }
  }

  /** Where the element at `j` of the second sequence sits in the first. */
  lemma PermutationSource<T(!new)>(a: seq<T>, b: seq<T>, j: nat) returns (i: nat)
    requires multiset(a) == multiset(b) && j < |b|
    ensures i < |a| && a[i] == b[j]
  {
    SameMultisetSameElements(a, b, b[j]);
    i :| 0 <= i < |a| && a[i] == b[j];
  }

  /** Duplicate-free sequences with the same elements are permutations of each other. */
  lemma {:induction false} DistinctSameElements<T(!new)>(a: seq<T>, b: seq<T>)
    requires Distinct(a) && Distinct(b)
    requires forall x :: x in a <==> x in b
    ensures multiset(a) == multiset(b)
  {
    forall x ensures multiset(a)[x] == multiset(b)[x] {
      DistinctCount(a, x);
      DistinctCount(b, x);
    }
  }

  lemma {:induction false} DistinctCount<T(!new)>(s: seq<T>, x: T)
    requires Distinct(s)
    ensures multiset(s)[x] == if x in s then 1 else 0
  {
    if s != [] {
      DistinctCount(s[1..], x);
      assert s == [s[0]] + s[1..];
    }
  }

  lemma DistinctPermutes<T(!new)>(a: seq<T>, b: seq<T>)
    requires multiset(a) == multiset(b) && Distinct(a)
    ensures Distinct(b)
  {
    forall i, j | 0 <= i < j < |b| ensures b[i] != b[j] {
      assert b == b[..j] + b[j..];
      assert b[..j][i] == b[i] && b[j..][0] == b[j];
      assert b[i] in multiset(b[..j]) && b[j] in multiset(b[j..]);
      DistinctCount(a, b[i]);
    }
  }

  // The element the loop stopped at is above everything on its left.
  lemma SinkStops(s: seq<bytes>, j: nat, n: nat)
    requires j <= n < |s|
    requires j > 0 ==> LexLeq(s[j - 1], s[j])
    requires forall p, q :: 0 <= p < q <= n && q != j ==> LexLeq(s[p], s[q])
    ensures Sorted(s[..n + 1])
  {
    forall p | 0 <= p < j ensures LexLeq(s[p], s[j]) {
      if p < j - 1 { LexTransitive(s[p], s[j - 1], s[j]); }
    }
  }

  method SwapDown(a: array<bytes>, j: nat)
    requires 0 < j < a.Length
    modifies a
    ensures a[j - 1] == old(a[j]) && a[j] == old(a[j - 1])
    ensures forall k :: 0 <= k < a.Length && k != j && k != j - 1 ==> a[k] == old(a[k])
    ensures multiset(a[..]) == multiset(old(a[..]))
  {
    a[j - 1], a[j] := a[j], a[j - 1];
  }

  /** Moves the element at `n` down to its place among the sorted ones before it. */
  method Sink(a: array<bytes>, n: nat)
    requires n < a.Length && Sorted(a[..n])
    modifies a
    ensures multiset(a[..]) == multiset(old(a[..]))
    ensures Sorted(a[..n + 1])
  {
    var j := n;
    while j > 0 && !LexLeq(a[j - 1], a[j])
      invariant 0 <= j <= n
      invariant multiset(a[..]) == multiset(old(a[..]))
      invariant forall p, q :: 0 <= p < q <= n && q != j ==> LexLeq(a[p], a[q])
    {
      LexTotal(a[j - 1], a[j]);
      SwapDown(a, j);
      j := j - 1;
    }
    assert a[..][..n + 1] == a[..n + 1];
    SinkStops(a[..], j, n);
  }

  /** Go's `slices.Sort` on a slice of strings: an in-place sort under the bytewise order. */
  method SortInPlace(a: array<bytes>)
    modifies a
    ensures a[..] == Sort(old(a[..]))
  {
    var n := 0;
    while n < a.Length
      invariant 0 <= n <= a.Length
      invariant multiset(a[..]) == multiset(old(a[..]))
      invariant Sorted(a[..n])
    {
      Sink(a, n);
      n := n + 1;
    }
    assert a[..n] == a[..];
    SortIsSorted(old(a[..]));
    SortUnique(a[..], Sort(old(a[..])));
  }

  // ----- joining and splitting

  /** Go's `strings.Join(parts, sep)` for a one-byte separator. */
  function Join(parts: seq<bytes>, sep: byte): bytes {
    if parts == [] then []
    else if |parts| == 1 then parts[0]
    else parts[0] + [sep] + Join(parts[1..], sep)
  }

  /** Where `sep` first occurs in `s` at or after `from`, or `|s|`. */
  function FirstIndexFrom(s: bytes, sep: byte, from: nat): (i: nat)
    requires from <= |s|
    ensures from <= i <= |s|
    ensures i < |s| ==> s[i] == sep
    ensures forall k :: from <= k < i ==> s[k] != sep
    decreases |s| - from
  {
    if from == |s| || s[from] == sep then from else FirstIndexFrom(s, sep, from + 1)
  }

  function FirstIndex(s: bytes, sep: byte): nat {
    FirstIndexFrom(s, sep, 0)
  }

  /** Every maximal run of `s` between separators: the left inverse of `Join`. */
  function Split(s: bytes, sep: byte): (parts: seq<bytes>)
    ensures parts != []
    decreases |s|
  {
    var i := FirstIndex(s, sep);
    if i == |s| then [s] else [s[..i]] + Split(s[i + 1..], sep)
  }

  lemma FirstIndexOfPrefix(p: bytes, sep: byte, rest: bytes)
    requires sep !in p
    ensures FirstIndex(p + [sep] + rest, sep) == |p|
  {
    var s := p + [sep] + rest;
    assert s[|p|] == sep;
    assert forall k :: 0 <= k < |p| ==> s[k] == p[k];
  }

  lemma {:induction false} SplitJoin(parts: seq<bytes>, sep: byte)
    requires parts != []
    requires forall p <- parts :: sep !in p
    ensures Split(Join(parts, sep), sep) == parts
  {
    assert parts[0] in parts;
    if |parts| == 1 {
      assert FirstIndex(parts[0], sep) == |parts[0]|;
    } else {
      var rest := Join(parts[1..], sep);
      FirstIndexOfPrefix(parts[0], sep, rest);
      SplitJoin(parts[1..], sep);
      var s := parts[0] + [sep] + rest;
      assert s[..|parts[0]|] == parts[0];
      assert s[|parts[0]| + 1..] == rest;
      assert parts == [parts[0]] + parts[1..];
    }
  }

  /** Go's `strings.Cut(s, sep)` for a one-byte separator. */
  function Cut(s: bytes, sep: byte): (r: Option<(bytes, bytes)>)
    ensures r.None? <==> sep !in s
    ensures r.Some? ==> s == r.value.0 + [sep] + r.value.1 && sep !in r.value.0
  {
    var i := FirstIndex(s, sep);
    if i == |s| then None else Some((s[..i], s[i + 1..]))
  }

  /** Cutting is the inverse of joining two halves whose first is free of the separator. */
  lemma CutJoined(a: bytes, sep: byte, b: bytes)
    requires sep !in a
    ensures Cut(a + [sep] + b, sep) == Some((a, b))
  {
    FirstIndexOfPrefix(a, sep, b);
    var s := a + [sep] + b;
    assert s[..|a|] == a && s[|a| + 1..] == b;
  }
}
