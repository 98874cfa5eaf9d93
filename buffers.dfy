/** Null-terminated buffers of code units, the `size_t` arithmetic the scanners use on
    them, the ordinal comparator, and the non-owning view type. */
module Buffers {

  datatype Option<T> = None | Some(value: T)

  /** `size_t` on a 64-bit target: values in [0, 2^64). */
  const SIZE_MODULUS: int := 0x1_0000_0000_0000_0000
  type Size = n: int | 0 <= n < 0x1_0000_0000_0000_0000

  /** `(size_t)-1`, the default bound of every scanner: "no limit". */
  const SIZE_MAX: Size := 0xFFFF_FFFF_FFFF_FFFF

  /** Unsigned `a -= d` on a `size_t`: wraps around modulo 2^64 when `d > a`. */
  function SizeSub(a: Size, d: nat): (r: Size)
    ensures d <= a ==> r == a - d
    ensures a < d <= a + SIZE_MODULUS ==> r == SIZE_MODULUS - (d - a)
    ensures (r + d) % SIZE_MODULUS == a
  {
    (a - d) % SIZE_MODULUS
  }

  /** A buffer is a sequence of code units that holds a 0 terminator somewhere. */
  predicate IsBuffer(buf: seq<int>) {
    0 in buf
  }

  /** The `length` collaborator: the index of the first 0 unit, i.e. the number of
      units before the terminator. */
  function Length(buf: seq<int>): (n: nat)
    requires IsBuffer(buf)
    ensures n < |buf| && buf[n] == 0
    ensures forall k :: 0 <= k < n ==> buf[k] != 0
  {
    if buf[0] == 0 then 0
    else
      assert buf == [buf[0]] + buf[1..];
      1 + Length(buf[1..])
  }

  /** `length` is determined by its contract: the first 0 unit is the terminator. */
  lemma LengthOf(buf: seq<int>, n: nat)
    requires n < |buf| && buf[n] == 0 && forall k :: 0 <= k < n ==> buf[k] != 0
    ensures IsBuffer(buf) && Length(buf) == n
  {
    assert buf[n] in buf;
  }

  /** The `compare` collaborator answering 0: the `n` units at `a[i..]` and `b[j..]`
      agree, where the comparison stops early, as an ordinal comparator of
      null-terminated strings does, at a terminator both strings share. */
  predicate UnitsEqual(a: seq<int>, i: nat, b: seq<int>, j: nat, n: nat)
    decreases n
  {
    n == 0 ||
    (i < |a| && j < |b| && a[i] == b[j] && (a[i] == 0 || UnitsEqual(a, i + 1, b, j + 1, n - 1)))
  }

  /** When the compared length stays inside the second string, `compare(a, b, n) == 0` is
      plain equality of the two `n`-unit slices. */
  lemma {:induction false} UnitsEqualIsSliceEquality(a: seq<int>, i: nat, b: seq<int>, j: nat, n: nat)
    requires i <= |a| && IsBuffer(b) && j + n <= Length(b)
    ensures UnitsEqual(a, i, b, j, n) <==> i + n <= |a| && a[i..i + n] == b[j..j + n]
    decreases n
  {
    if n > 0 && i < |a| {
      assert b[j] != 0;
      UnitsEqualIsSliceEquality(a, i + 1, b, j + 1, n - 1);
      if i + n <= |a| {
        var s, t := a[i..i + n], b[j..j + n];
        assert s == [a[i]] + a[i + 1..i + n] && t == [b[j]] + b[j + 1..j + n];
        assert s == t <==> a[i] == b[j] && a[i + 1..i + n] == b[j + 1..j + n] by {
          if s == t { assert s[0] == t[0] && s[1..] == t[1..]; }
        }
      }
    }
  }

  /** The comparison stops at a terminator both strings share: strings equal up to and
      including a common 0 compare equal for any longer `n`. UnitsEqualPastNeedle gives
      the converse for a bound past the second string's end. */
  lemma {:induction false} UnitsEqualSharedTerminator(a: seq<int>, i: nat, b: seq<int>, j: nat, k: nat, n: nat)
    requires i + k < |a| && j + k < |b| && a[i..i + k] == b[j..j + k]
    requires a[i + k] == 0 && b[j + k] == 0 && k < n
    ensures UnitsEqual(a, i, b, j, n)
    decreases k
  {
    if k > 0 {
      assert a[i] == a[i..i + k][0] == b[j..j + k][0] == b[j];
      if a[i] != 0 {
        assert a[i + 1..i + k] == a[i..i + k][1..] == b[j..j + k][1..] == b[j + 1..j + k];
        UnitsEqualSharedTerminator(a, i + 1, b, j + 1, k - 1, n - 1);
      }
    }
  }

  /** With a bound that runs past the second string's terminator, `compare` answers 0
      exactly when the first string holds the rest of the second and ends where it does:
      an occurrence followed by more units fails at the second string's terminator. */
  lemma {:induction false} UnitsEqualPastNeedle(a: seq<int>, i: nat, b: seq<int>, j: nat, n: nat)
    requires IsBuffer(b) && j <= Length(b) && Length(b) - j < n
    ensures var k := Length(b) - j;
            UnitsEqual(a, i, b, j, n) <==> i + k < |a| && a[i..i + k] == b[j..Length(b)] && a[i + k] == 0
    decreases Length(b) - j
  {
    var k := Length(b) - j;
    if j < Length(b) {
      assert b[j] != 0;
      UnitsEqualPastNeedle(a, i + 1, b, j + 1, n - 1);
      if i + k < |a| {
        var s, t := a[i..i + k], b[j..Length(b)];
        assert s == [a[i]] + a[i + 1..i + k] && t == [b[j]] + b[j + 1..Length(b)];
        assert s == t <==> a[i] == b[j] && a[i + 1..i + k] == b[j + 1..Length(b)] by {
          if s == t { assert s[0] == t[0] && s[1..] == t[1..]; }
        }
      }
    }
  }

  /** `reference_string<T>`: a borrowed span [start, end) of a caller-owned buffer. The
      line splitter writes its fields through a reference, so it is an object. */
  class View {
    var start: nat
    var end: nat

    constructor (start: nat, end: nat)
      ensures this.start == start && this.end == end
    {
      this.start := start;
      this.end := end;
    }
  }
}
