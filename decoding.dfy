/** The decoder collaborator (`nextchar` / `getchar`): given a cursor into a buffer it
    yields the code point that starts there and the cursor just past it. The scanners
    only rely on its contract, `Decodes`; two concrete decoders that meet it are given
    for the worked examples. */
module Decoding {
  import opened Buffers

  /** One decoding step: the code point and the cursor after it. */
  datatype Step = Step(cp: int, next: nat)

  type Decoder = (seq<int>, nat) -> Step

  /** What a decoding step at cursor `i` promises: the sentinel 0 exactly at the
      terminator; elsewhere a non-zero code point of at least one unit that does not run
      past the terminator. (Where the cursor goes after the terminator is left open.) */
  predicate StepValid(buf: seq<int>, i: nat, s: Step)
    requires IsBuffer(buf)
  {
    if i == Length(buf) then s.cp == 0 else s.cp != 0 && i < s.next <= Length(buf)
  }

  /** `dec` honours the decoder contract at every cursor of `buf` up to the terminator. */
  predicate Decodes(dec: Decoder, buf: seq<int>) {
    IsBuffer(buf) && forall i: nat :: i <= Length(buf) ==> StepValid(buf, i, dec(buf, i))
  }

  /** The code-point boundaries from `p` up to (not including) the terminator: the
      cursors a scan starting at `p` visits, in order. */
  function Boundaries(dec: Decoder, buf: seq<int>, p: nat): (w: seq<nat>)
    requires Decodes(dec, buf) && p <= Length(buf)
    ensures forall k :: 0 <= k < |w| ==> p <= w[k] < Length(buf)
    ensures w == [] <==> p == Length(buf)
    ensures w != [] ==> w[0] == p
    decreases Length(buf) - p
  {
    if p == Length(buf) then [] else [p] + Boundaries(dec, buf, dec(buf, p).next)
  }

  /** The boundaries after `p` are those after the code point that starts at `p`. */
  lemma BoundariesStep(dec: Decoder, buf: seq<int>, p: nat, q: nat)
    requires Decodes(dec, buf) && p < Length(buf)
    ensures q in Boundaries(dec, buf, p) <==> q == p || q in Boundaries(dec, buf, dec(buf, p).next)
    ensures q in Boundaries(dec, buf, dec(buf, p).next) ==> p < q
  {
  }

  /** Every boundary after `p` is a boundary after `p`'s successors that precede it. */
  lemma {:induction false} BoundariesTransitive(dec: Decoder, buf: seq<int>, p: nat, q: nat, t: nat)
    requires Decodes(dec, buf) && p <= Length(buf)
    requires q in Boundaries(dec, buf, p) && t in Boundaries(dec, buf, p) && q <= t
    ensures t in Boundaries(dec, buf, q)
    decreases Length(buf) - p
  {
    if p != q {
      var n := dec(buf, p).next;
      BoundariesStep(dec, buf, p, q);
      BoundariesStep(dec, buf, p, t);
      BoundariesTransitive(dec, buf, n, q, t);
    }
  }

  /** A boundary after a boundary of `p` is itself a boundary of `p`. */
  lemma {:induction false} BoundariesSubset(dec: Decoder, buf: seq<int>, p: nat, c: nat, t: nat)
    requires Decodes(dec, buf) && p <= Length(buf)
    requires c in Boundaries(dec, buf, p) && t in Boundaries(dec, buf, c)
    ensures t in Boundaries(dec, buf, p)
    decreases Length(buf) - p
  {
    if c != p {
      BoundariesStep(dec, buf, p, c);
      BoundariesSubset(dec, buf, dec(buf, p).next, c, t);
      BoundariesStep(dec, buf, p, t);
    }
  }

  /** The boundaries after the code point at boundary `c` are the boundaries of `p`
      beyond `c`. */
  lemma BoundariesAfter(dec: Decoder, buf: seq<int>, p: nat, c: nat, t: nat)
    requires Decodes(dec, buf) && p <= Length(buf) && c in Boundaries(dec, buf, p)
    ensures t in Boundaries(dec, buf, dec(buf, c).next) <==> t in Boundaries(dec, buf, p) && c < t
  {
    BoundariesStep(dec, buf, c, t);
    if t in Boundaries(dec, buf, dec(buf, c).next) {
      BoundariesSubset(dec, buf, p, c, t);
    }
    if t in Boundaries(dec, buf, p) && c < t {
      BoundariesTransitive(dec, buf, p, c, t);
    }
  }

  // ---------------------------------------------------------------------------
  // One code unit per code point: the ASCII / UTF-32 case.

  function UnitDecode(buf: seq<int>, i: nat): (s: Step)
    ensures i < |buf| ==> s == Step(buf[i], i + 1)
  {
    if i < |buf| then Step(buf[i], i + 1) else Step(0, i)
  }

  lemma UnitDecodes(buf: seq<int>)
    requires IsBuffer(buf)
    ensures Decodes(UnitDecode, buf)
  {
  }

  /** With one unit per code point every cursor before the terminator is a boundary. */
  lemma {:induction false} UnitBoundaries(buf: seq<int>, p: nat, q: nat)
    requires IsBuffer(buf) && p <= Length(buf)
    ensures Decodes(UnitDecode, buf)
    ensures q in Boundaries(UnitDecode, buf, p) <==> p <= q < Length(buf)
    decreases Length(buf) - p
  {
    UnitDecodes(buf);
    if p < Length(buf) {
      UnitBoundaries(buf, p + 1, q);
      BoundariesStep(UnitDecode, buf, p, q);
    }
  }

  // ---------------------------------------------------------------------------
  // UTF-16: a high surrogate followed by a low surrogate is one code point of two units.

  const HIGH_SURROGATE: int := 0xD800
  const LOW_SURROGATE: int := 0xDC00
  const SURROGATE_END: int := 0xE000

  predicate IsHigh(u: int) { HIGH_SURROGATE <= u < LOW_SURROGATE }
  predicate IsLow(u: int) { LOW_SURROGATE <= u < SURROGATE_END }

  function Utf16Decode(buf: seq<int>, i: nat): (s: Step)
    ensures i + 1 < |buf| && IsHigh(buf[i]) && IsLow(buf[i + 1]) ==>
              s.next == i + 2 && s.cp >= 0x10000
    ensures i < |buf| && !(i + 1 < |buf| && IsHigh(buf[i]) && IsLow(buf[i + 1])) ==>
              s == Step(buf[i], i + 1)
  {
    if i + 1 < |buf| && IsHigh(buf[i]) && IsLow(buf[i + 1]) then
      Step(0x10000 + (buf[i] - HIGH_SURROGATE) * 0x400 + (buf[i + 1] - LOW_SURROGATE), i + 2)
    else if i < |buf| then Step(buf[i], i + 1)
    else Step(0, i)
  }

  lemma Utf16Decodes(buf: seq<int>)
    requires IsBuffer(buf)
    ensures Decodes(Utf16Decode, buf)
  {
    forall i: nat | i <= Length(buf) ensures StepValid(buf, i, Utf16Decode(buf, i)) {
      if i + 1 < |buf| && IsHigh(buf[i]) && IsLow(buf[i + 1]) {
        assert i + 1 != Length(buf);
      }
    }
  }
}
