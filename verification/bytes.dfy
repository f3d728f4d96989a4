/** Byte strings: searching, splitting and decimal fields, as the input parser uses them. */
module Bytes {
  import opened Options

  type byte = b: int | 0 <= b < 256
  type bytes = seq<byte>

  /** True when `needle` occurs in `s` at index `i`. */
  predicate MatchAt(s: bytes, i: nat, needle: bytes) {
    i + |needle| <= |s| && s[i..i + |needle|] == needle
  }

  /** The first index at or after `from` where `needle` occurs. */
  function FindSubFrom(s: bytes, needle: bytes, from: nat): (r: Option<nat>)
    ensures r.Some? ==> from <= r.value && MatchAt(s, r.value, needle)
    ensures forall i: nat {:trigger MatchAt(s, i, needle)} ::
              from <= i && (r.None? || i < r.value) ==> !MatchAt(s, i, needle)
    decreases |s| - from
  {
    if from + |needle| > |s| then None
    else if MatchAt(s, from, needle) then Some(from)
    else FindSubFrom(s, needle, from + 1)
  }

  function FindSub(s: bytes, needle: bytes): Option<nat> {
    FindSubFrom(s, needle, 0)
  }

  /** The first index at or after `from` whose byte is in `stops`. */
  function IndexIn(s: bytes, from: nat, stops: set<byte>): (r: Option<nat>)
    ensures r.Some? ==> from <= r.value < |s| && s[r.value] in stops
    ensures forall i {:trigger s[i]} ::
              from <= i < |s| && (r.None? || i < r.value) ==> s[i] !in stops
    decreases |s| - from
  {
    if from >= |s| then None
    else if s[from] in stops then Some(from)
    else IndexIn(s, from + 1, stops)
  }

  /** A found occurrence stays the first one when more bytes arrive. */
  lemma FindSubStable(s: bytes, needle: bytes, c: bytes)
    requires FindSub(s, needle).Some?
    ensures FindSub(s + c, needle) == FindSub(s, needle)
  {
    var k := FindSub(s, needle).value;
    assert (s + c)[k..k + |needle|] == s[k..k + |needle|];
    assert MatchAt(s + c, k, needle);
    var j := FindSub(s + c, needle);
    if j.None? || j.value > k {
      assert false;
    }
    assert (s + c)[j.value..j.value + |needle|] == s[j.value..j.value + |needle|];
    assert MatchAt(s, j.value, needle);
  }

  lemma {:induction false} IndexInStable(s: bytes, from: nat, stops: set<byte>, c: bytes)
    requires IndexIn(s, from, stops).Some?
    ensures IndexIn(s + c, from, stops) == IndexIn(s, from, stops)
  {
    var k := IndexIn(s, from, stops).value;
    assert (s + c)[k] == s[k];
    var j := IndexIn(s + c, from, stops);
    if j.None? || j.value > k {
      assert false;
    }
    assert (s + c)[j.value] == s[j.value];
  }

  /** The fields of `s` between occurrences of `sep`; never empty. */
  function Split(s: bytes, sep: byte): (r: seq<bytes>)
    ensures |r| >= 1
  {
    match IndexIn(s, 0, {sep})
    case None => [s]
    case Some(i) => [s[..i]] + Split(s[i + 1..], sep)
  }

  predicate IsDigit(b: byte) { 0x30 <= b <= 0x39 }

  predicate AllDigits(s: bytes) { forall i :: 0 <= i < |s| ==> IsDigit(s[i]) }

  function DecimalValue(s: bytes): nat
    requires AllDigits(s)
  {
    if s == [] then 0 else 10 * DecimalValue(s[..|s| - 1]) + (s[|s| - 1] - 0x30)
  }

  /** Unsigned decimal field: an optional `+`, at least one digit, and no overflow of `max`. */
  function ParseUnsigned(s: bytes, max: nat): Option<nat> {
    var digits := if s != [] && s[0] == 0x2b then s[1..] else s;
    if digits == [] || !AllDigits(digits) || DecimalValue(digits) > max then None
    else Some(DecimalValue(digits))
  }

  /** All chunks of a list, joined. */
  function Flatten(chunks: seq<bytes>): bytes {
    if chunks == [] then [] else chunks[0] + Flatten(chunks[1..])
  }

  lemma {:induction false} FlattenAppend(a: seq<bytes>, b: seq<bytes>)
    ensures Flatten(a + b) == Flatten(a) + Flatten(b)
  {
    if a == [] {
      assert a + b == b;
    } else {
      assert (a + b)[1..] == a[1..] + b;
      FlattenAppend(a[1..], b);
    }
  }

  /** `a` can be obtained from `b` by deleting bytes, keeping the order of the others. */
  ghost predicate Subsequence(a: bytes, b: bytes)
    decreases |b|
  {
    a == [] || (b != [] && ((a[0] == b[0] && Subsequence(a[1..], b[1..])) || Subsequence(a, b[1..])))
  }

  lemma {:induction false} SubsequenceSelf(a: bytes)
    ensures Subsequence(a, a)
  {
    if a != [] {
      SubsequenceSelf(a[1..]);
    }
  }

  lemma {:induction false} SubsequenceConcat(a: bytes, b: bytes, c: bytes, d: bytes)
    requires Subsequence(a, b) && Subsequence(c, d)
    ensures Subsequence(a + c, b + d)
    decreases |b|
  {
    if b == [] {
      assert a + c == c && b + d == d;
    } else {
      assert (b + d)[1..] == b[1..] + d && (b + d)[0] == b[0];
      if a != [] && a[0] == b[0] && Subsequence(a[1..], b[1..]) {
        SubsequenceConcat(a[1..], b[1..], c, d);
        assert (a + c)[1..] == a[1..] + c;
      } else {
        SubsequenceConcat(a, b[1..], c, d);
      }
    }
  }

  /** A suffix is a subsequence. */
  lemma {:induction false} SubsequenceDrop(a: bytes, n: nat)
    requires n <= |a|
    ensures Subsequence(a[n..], a)
  {
    SubsequenceSelf(a[n..]);
    assert Subsequence([], a[..n]);
    SubsequenceConcat([], a[..n], a[n..], a[n..]);
    assert [] + a[n..] == a[n..] && a[..n] + a[n..] == a;
  }

  lemma {:induction false} SubsequenceTransitive(a: bytes, b: bytes, c: bytes)
    requires Subsequence(a, b) && Subsequence(b, c)
    ensures Subsequence(a, c)
    decreases |b| + |c|
  {
    if a != [] {
      if b[0] == c[0] && Subsequence(b[1..], c[1..]) {
        if a[0] == b[0] && Subsequence(a[1..], b[1..]) {
          SubsequenceTransitive(a[1..], b[1..], c[1..]);
        } else {
          SubsequenceTransitive(a, b[1..], c[1..]);
        }
      } else {
        SubsequenceTransitive(a, b, c[1..]);
      }
    }
  }
}
