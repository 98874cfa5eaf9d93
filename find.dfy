/** The three scanners of the library: the first occurrence of a code point, of a
    string, and of any code point of a set, each over a null-terminated buffer and
    optionally bounded by a budget of code units. */
module Find {
  import opened Buffers
  import opened Decoding

  // ---------------------------------------------------------------------------
  // Budgets.
  //
  // A scan from `p` with budget `b` checks `b > 0` before decoding each code point and
  // then subtracts that code point's width (wrapping, as `size_t` does). After the
  // code points up to boundary `t` are consumed the remaining budget is
  // (b - (t - p)) mod 2^64, so the scan stops exactly at a boundary whose offset from
  // `p` is b modulo 2^64; a code point that straddles offset b makes the budget wrap,
  // and no later boundary stops the scan.

  lemma BudgetShift(x: int, d: nat, b: Size)
    requires x >= 0
    ensures (x + d) % SIZE_MODULUS == b <==> x % SIZE_MODULUS == SizeSub(b, d)
  {
    var m := SIZE_MODULUS;
    if (x + d) % m == b {
      assert x + d == ((x + d) / m) * m + b;
      assert x == ((x + d) / m) * m + (b - d);
      assert x % m == (b - d) % m;
    }
    if x % m == SizeSub(b, d) {
      assert b - d == ((b - d) / m) * m + x % m;
      assert x == (x / m) * m + x % m;
      assert x + d == (x / m - (b - d) / m) * m + b;
    }
  }

  /** The units consumed between cursors `p` and `t`, as a `size_t` counts them. */
  function Consumed(p: nat, t: nat): Size {
    (t - p) % SIZE_MODULUS
  }

  /** The scan from `p` with budget `budget` decodes the code point at boundary `q`:
      no boundary up to and including `q` lies where the budget runs out. */
  predicate Reached(dec: Decoder, buf: seq<int>, p: nat, budget: Size, q: nat)
    requires Decodes(dec, buf) && p <= Length(buf)
  {
    q in Boundaries(dec, buf, p) && Lasts(dec, buf, p, budget, q)
  }

  /** No boundary from `p` up to and including `q` lies where the budget runs out. */
  predicate Lasts(dec: Decoder, buf: seq<int>, p: nat, budget: Size, q: nat)
    requires Decodes(dec, buf) && p <= Length(buf)
  {
    forall t :: t in Boundaries(dec, buf, p) && t <= q ==> Consumed(p, t) != budget
  }

  lemma ReachedStep(dec: Decoder, buf: seq<int>, p: nat, budget: Size, q: nat)
    requires Decodes(dec, buf) && p < Length(buf)
    ensures Reached(dec, buf, p, budget, p) <==> budget != 0
    ensures q != p ==>
      (Reached(dec, buf, p, budget, q) <==>
       budget != 0 &&
       Reached(dec, buf, dec(buf, p).next, SizeSub(budget, dec(buf, p).next - p), q))
  {
    var n := dec(buf, p).next;
    var b' := SizeSub(budget, n - p);
    var bp, bn := Boundaries(dec, buf, p), Boundaries(dec, buf, n);
    assert bp == [p] + bn;
    assert p in bp;
    if q != p {
      if Reached(dec, buf, p, budget, q) {
        ReachedForward(dec, buf, p, budget, q);
      }
      if budget != 0 && Reached(dec, buf, n, b', q) {
        ReachedBackward(dec, buf, p, budget, q);
      }
    }
  }

  /** The budget test at boundary `t`, seen from `p` with budget `budget` or from a later
      cursor `n` with the budget left after the units between them. */
  lemma ShiftAt(p: nat, n: nat, t: nat, budget: Size)
    requires p <= n <= t
    ensures Consumed(p, t) == budget <==> Consumed(n, t) == SizeSub(budget, n - p)
  {
    BudgetShift(t - n, n - p, budget);
    assert (t - n) + (n - p) == t - p;
  }

  lemma ReachedForward(dec: Decoder, buf: seq<int>, p: nat, budget: Size, q: nat)
    requires Decodes(dec, buf) && p < Length(buf) && q != p
    requires Reached(dec, buf, p, budget, q)
    ensures budget != 0
    ensures Reached(dec, buf, dec(buf, p).next, SizeSub(budget, dec(buf, p).next - p), q)
  {
    var n := dec(buf, p).next;
    assert budget != 0 by {
      BoundariesStep(dec, buf, p, p);
      assert Consumed(p, p) == 0;
    }
    assert q in Boundaries(dec, buf, n) by {
      BoundariesStep(dec, buf, p, q);
    }
    var rest := SizeSub(budget, n - p);
    assert Lasts(dec, buf, n, rest, q) by {
      forall t | t in Boundaries(dec, buf, n) && t <= q
        ensures Consumed(n, t) != rest
      {
        ReachedForwardAt(dec, buf, p, budget, q, t);
      }
    }
  }

  lemma ReachedForwardAt(dec: Decoder, buf: seq<int>, p: nat, budget: Size, q: nat, t: nat)
    requires Decodes(dec, buf) && p < Length(buf)
    requires Reached(dec, buf, p, budget, q)
    requires t in Boundaries(dec, buf, dec(buf, p).next) && t <= q
    ensures Consumed(dec(buf, p).next, t) != SizeSub(budget, dec(buf, p).next - p)
  {
    var n := dec(buf, p).next;
    BoundariesStep(dec, buf, p, t);
    assert Consumed(p, t) != budget;
    ShiftAt(p, n, t, budget);
  }

  lemma ReachedBackward(dec: Decoder, buf: seq<int>, p: nat, budget: Size, q: nat)
    requires Decodes(dec, buf) && p < Length(buf) && q != p && budget != 0
    requires Reached(dec, buf, dec(buf, p).next, SizeSub(budget, dec(buf, p).next - p), q)
    ensures Reached(dec, buf, p, budget, q)
  {
    BoundariesStep(dec, buf, p, q);
    assert Lasts(dec, buf, p, budget, q) by {
      forall t | t in Boundaries(dec, buf, p) && t <= q
        ensures Consumed(p, t) != budget
      {
        if t == p {
          assert Consumed(p, t) == 0;
        } else {
          ReachedBackwardAt(dec, buf, p, budget, q, t);
        }
      }
    }
  }

  lemma ReachedBackwardAt(dec: Decoder, buf: seq<int>, p: nat, budget: Size, q: nat, t: nat)
    requires Decodes(dec, buf) && p < Length(buf) && q != p && budget != 0
    requires Reached(dec, buf, dec(buf, p).next, SizeSub(budget, dec(buf, p).next - p), q)
    requires t in Boundaries(dec, buf, p) && t <= q && t != p
    ensures Consumed(p, t) != budget
  {
    var n := dec(buf, p).next;
    assert t in Boundaries(dec, buf, n) by {
      BoundariesStep(dec, buf, p, t);
    }
    assert Consumed(n, t) != SizeSub(budget, n - p);
    ShiftAt(p, n, t, budget);
  }

  // ---------------------------------------------------------------------------
  // Character search: `findfirst(T *str, char32_t character, size_t strLength)`.

  /** The position the character search returns, or None for NULL. */
  function CharSearch(dec: Decoder, buf: seq<int>, p: nat, c: int, budget: Size): (r: Option<nat>)
    requires Decodes(dec, buf) && p <= Length(buf)
    ensures r.Some? ==> p <= r.value < Length(buf) && dec(buf, r.value).cp == c
    decreases Length(buf) - p
  {
    if budget == 0 then None
    else
      var step := dec(buf, p);
      if step.cp == 0 then None
      else if step.cp == c then Some(p)
      else CharSearch(dec, buf, step.next, c, SizeSub(budget, step.next - p))
  }

  /** `q` is the first boundary the scan reaches whose code point is `c`. */
  predicate FirstCharAt(dec: Decoder, buf: seq<int>, p: nat, budget: Size, c: int, q: nat)
    requires Decodes(dec, buf) && p <= Length(buf)
  {
    Reached(dec, buf, p, budget, q) && dec(buf, q).cp == c && Absent(dec, buf, p, c, q)
  }

  /** No boundary from `p` before `q` holds `c`. */
  predicate Absent(dec: Decoder, buf: seq<int>, p: nat, c: int, q: nat)
    requires Decodes(dec, buf) && p <= Length(buf)
  {
    forall t :: t in Boundaries(dec, buf, p) && t < q ==> dec(buf, t).cp != c
  }

  lemma AbsentStep(dec: Decoder, buf: seq<int>, p: nat, c: int, q: nat)
    requires Decodes(dec, buf) && p < Length(buf) && p < q
    ensures Absent(dec, buf, p, c, q) <==>
            dec(buf, p).cp != c && Absent(dec, buf, dec(buf, p).next, c, q)
  {
    var n := dec(buf, p).next;
    forall t | t in Boundaries(dec, buf, p)
      ensures t == p || t in Boundaries(dec, buf, n)
    {
      BoundariesStep(dec, buf, p, t);
    }
    forall t | t in Boundaries(dec, buf, n)
      ensures t in Boundaries(dec, buf, p)
    {
      BoundariesStep(dec, buf, p, t);
    }
    assert p in Boundaries(dec, buf, p);
  }

  /** The character search returns exactly the first reached boundary holding `c`. */
  lemma {:induction false} CharSearchFinds(dec: Decoder, buf: seq<int>, p: nat, c: int, budget: Size, q: nat)
    requires Decodes(dec, buf) && p <= Length(buf)
    ensures CharSearch(dec, buf, p, c, budget) == Some(q) <==> FirstCharAt(dec, buf, p, budget, c, q)
    decreases Length(buf) - p
  {
    if p < Length(buf) {
      var n := dec(buf, p).next;
      var b' := SizeSub(budget, n - p);
      ReachedStep(dec, buf, p, budget, q);
      BoundariesStep(dec, buf, p, q);
      if budget != 0 && dec(buf, p).cp != c {
        CharSearchFinds(dec, buf, n, c, b', q);
        if p < q {
          AbsentStep(dec, buf, p, c, q);
        }
      }
    }
  }

  /** A found position is a boundary, and no earlier boundary holds `c`. */
  lemma CharSearchFound(dec: Decoder, buf: seq<int>, p: nat, c: int, budget: Size, q: nat)
    requires Decodes(dec, buf) && p <= Length(buf) && CharSearch(dec, buf, p, c, budget) == Some(q)
    ensures q in Boundaries(dec, buf, p)
    ensures forall t :: t in Boundaries(dec, buf, p) && t < q ==> dec(buf, t).cp != c
  {
    CharSearchFinds(dec, buf, p, c, budget, q);
  }

  /** The character search returns NULL exactly when no reached boundary holds `c`. */
  lemma {:induction false} CharSearchMisses(dec: Decoder, buf: seq<int>, p: nat, c: int, budget: Size)
    requires Decodes(dec, buf) && p <= Length(buf)
    ensures CharSearch(dec, buf, p, c, budget) == None <==>
            forall q :: Reached(dec, buf, p, budget, q) ==> dec(buf, q).cp != c
    decreases Length(buf) - p
  {
    if p == Length(buf) {
      assert Boundaries(dec, buf, p) == [];
    } else if budget == 0 {
      forall q | Reached(dec, buf, p, budget, q) ensures false {
        ReachedStep(dec, buf, p, budget, q);
      }
    } else if dec(buf, p).cp == c {
      ReachedStep(dec, buf, p, budget, p);
    } else {
      var n := dec(buf, p).next;
      var b' := SizeSub(budget, n - p);
      CharSearchMisses(dec, buf, n, c, b');
      forall q | Reached(dec, buf, p, budget, q) && q != p
        ensures Reached(dec, buf, n, b', q)
      {
        ReachedStep(dec, buf, p, budget, q);
      }
      forall q | Reached(dec, buf, n, b', q)
        ensures q != p && Reached(dec, buf, p, budget, q)
      {
        BoundariesStep(dec, buf, p, q);
        ReachedStep(dec, buf, p, budget, q);
      }
    }
  }

  /** Searching for the terminator itself never succeeds: the loop leaves on the 0 code
      point before comparing it. */
  lemma CharSearchNul(dec: Decoder, buf: seq<int>, p: nat, budget: Size)
    requires Decodes(dec, buf) && p <= Length(buf)
    ensures CharSearch(dec, buf, p, 0, budget) == None
  {
  }

  /** A scan with the default bound reaches every boundary of a buffer shorter than it. */
  lemma UnboundedReaches(dec: Decoder, buf: seq<int>, p: nat, q: nat)
    requires Decodes(dec, buf) && p <= Length(buf) && Length(buf) - p <= SIZE_MAX
    requires q in Boundaries(dec, buf, p)
    ensures Reached(dec, buf, p, SIZE_MAX, q)
  {
    forall u | u in Boundaries(dec, buf, p) && u <= q ensures Consumed(p, u) != SIZE_MAX {
      assert Consumed(p, u) == u - p;
    }
  }

  /** With the default bound `(size_t)-1` on a buffer shorter than that, the search
      finds the first boundary holding `c` before the terminator, or NULL when none does. */
  lemma CharSearchUnbounded(dec: Decoder, buf: seq<int>, p: nat, c: int, q: nat)
    requires Decodes(dec, buf) && p <= Length(buf) && Length(buf) - p <= SIZE_MAX
    ensures CharSearch(dec, buf, p, c, SIZE_MAX) == Some(q) <==>
            q in Boundaries(dec, buf, p) && dec(buf, q).cp == c &&
            forall t :: t in Boundaries(dec, buf, p) && t < q ==> dec(buf, t).cp != c
    ensures CharSearch(dec, buf, p, c, SIZE_MAX) == None <==>
            forall t :: t in Boundaries(dec, buf, p) ==> dec(buf, t).cp != c
  {
    forall t | t in Boundaries(dec, buf, p) ensures Reached(dec, buf, p, SIZE_MAX, t) {
      UnboundedReaches(dec, buf, p, t);
    }
    CharSearchFinds(dec, buf, p, c, SIZE_MAX, q);
    CharSearchMisses(dec, buf, p, c, SIZE_MAX);
  }

  /** With one unit per code point a scan reaches exactly the offsets below its budget. */
  lemma UnitReached(buf: seq<int>, p: nat, budget: Size, q: nat)
    requires IsBuffer(buf) && p <= Length(buf) && |buf| <= SIZE_MODULUS
    ensures Decodes(UnitDecode, buf)
    ensures Reached(UnitDecode, buf, p, budget, q) <==> p <= q < Length(buf) && q - p < budget
  {
    UnitDecodes(buf);
    UnitBoundaries(buf, p, q);
    if p <= q < Length(buf) {
      if q - p < budget {
        UnitReachedBelow(buf, p, budget, q);
      } else {
        UnitNotReachedAbove(buf, p, budget, q);
      }
    }
  }

  lemma {:induction false} UnitNotReachedAbove(buf: seq<int>, p: nat, budget: Size, q: nat)
    requires IsBuffer(buf) && p <= q < Length(buf) && |buf| <= SIZE_MODULUS && budget <= q - p
    ensures Decodes(UnitDecode, buf)
    ensures !Reached(UnitDecode, buf, p, budget, q)
  {
    UnitBudgetEnd(buf, p, budget);
    ReachedBefore(UnitDecode, buf, p, budget, q, p + budget);
  }

  /** With one unit per code point the budget runs out at the boundary `budget` units on. */
  lemma UnitBudgetEnd(buf: seq<int>, p: nat, budget: Size)
    requires IsBuffer(buf) && p + budget < Length(buf)
    ensures Decodes(UnitDecode, buf)
    ensures p + budget in Boundaries(UnitDecode, buf, p) && Consumed(p, p + budget) == budget
  {
    UnitDecodes(buf);
    UnitBoundaries(buf, p, p + budget);
    SmallOffset(budget);
  }

  lemma UnitReachedBelow(buf: seq<int>, p: nat, budget: Size, q: nat)
    requires IsBuffer(buf) && p <= q < Length(buf) && |buf| <= SIZE_MODULUS && q - p < budget
    ensures Decodes(UnitDecode, buf)
    ensures Reached(UnitDecode, buf, p, budget, q)
  {
    UnitDecodes(buf);
    UnitBoundaries(buf, p, q);
    UnitOffsetsBelow(buf, p, budget, q);
  }

  lemma UnitOffsetsBelow(buf: seq<int>, p: nat, budget: Size, q: nat)
    requires Decodes(UnitDecode, buf) && p <= q < Length(buf) && |buf| <= SIZE_MODULUS
    requires q - p < budget
    ensures forall t :: t in Boundaries(UnitDecode, buf, p) && t <= q ==>
              Consumed(p, t) != budget
  {
    forall t | t in Boundaries(UnitDecode, buf, p) && t <= q
      ensures Consumed(p, t) != budget
    {
      UnitBoundaries(buf, p, t);
      SmallOffset(t - p);
    }
  }

  lemma SmallOffset(x: nat)
    requires x < SIZE_MODULUS
    ensures x % SIZE_MODULUS == x
  {
  }

  /** With one unit per code point the bound is exact: a match at offset k from the start
      is found iff k < budget and no earlier unit matches. */
  lemma CharSearchUnitBudget(buf: seq<int>, p: nat, c: int, budget: Size, q: nat)
    requires IsBuffer(buf) && p <= Length(buf) && |buf| <= SIZE_MODULUS
    ensures Decodes(UnitDecode, buf)
    ensures CharSearch(UnitDecode, buf, p, c, budget) == Some(q) <==>
            p <= q < Length(buf) && q - p < budget && buf[q] == c &&
            forall t :: p <= t < q ==> buf[t] != c
  {
    UnitDecodes(buf);
    CharSearchFinds(UnitDecode, buf, p, c, budget, q);
    UnitReached(buf, p, budget, q);
    var w := Boundaries(UnitDecode, buf, p);
    if FirstCharAt(UnitDecode, buf, p, budget, c, q) {
      forall t | p <= t < q ensures buf[t] != c {
        UnitBoundaries(buf, p, t);
        assert t in w;
      }
    }
    if p <= q < Length(buf) && q - p < budget && buf[q] == c && forall t :: p <= t < q ==> buf[t] != c {
      forall t | t in w && t < q ensures UnitDecode(buf, t).cp != c {
        UnitBoundaries(buf, p, t);
      }
    }
  }

  /** When the bound ends on a code-point boundary (or at the terminator), as a view's
      end does, every position found lies before it. */
  lemma {:induction false} CharSearchWithinBound(dec: Decoder, buf: seq<int>, p: nat, c: int, e: nat)
    requires Decodes(dec, buf) && p <= e <= Length(buf) && e - p < SIZE_MODULUS
    requires e in Boundaries(dec, buf, p) || e == Length(buf)
    ensures var r := CharSearch(dec, buf, p, c, e - p); r.Some? ==> r.value < e
  {
    if e in Boundaries(dec, buf, p) {
      SmallOffset(e - p);
      CharSearchStopsAt(dec, buf, p, c, e - p, e);
    }
  }

  /** The search finds nothing at or beyond a boundary where its budget runs out. */
  lemma {:induction false} CharSearchStopsAt(dec: Decoder, buf: seq<int>, p: nat, c: int, budget: Size, e: nat)
    requires Decodes(dec, buf) && p <= Length(buf)
    requires e in Boundaries(dec, buf, p) && Consumed(p, e) == budget
    ensures var r := CharSearch(dec, buf, p, c, budget); r.Some? ==> r.value < e
  {
    var r := CharSearch(dec, buf, p, c, budget);
    if r.Some? {
      CharSearchReached(dec, buf, p, c, budget, r.value);
      ReachedBefore(dec, buf, p, budget, r.value, e);
    }
  }

  /** A position the character search returns is reached by the scan. */
  lemma CharSearchReached(dec: Decoder, buf: seq<int>, p: nat, c: int, budget: Size, q: nat)
    requires Decodes(dec, buf) && p <= Length(buf)
    requires CharSearch(dec, buf, p, c, budget) == Some(q)
    ensures Reached(dec, buf, p, budget, q)
  {
    CharSearchFinds(dec, buf, p, c, budget, q);
  }

  /** A reached boundary lies before any boundary where the budget runs out. */
  lemma ReachedBefore(dec: Decoder, buf: seq<int>, p: nat, budget: Size, q: nat, e: nat)
    requires Decodes(dec, buf) && p <= Length(buf)
    requires e in Boundaries(dec, buf, p) && Consumed(p, e) == budget
    ensures e <= q ==> !Reached(dec, buf, p, budget, q)
  {
  }

  /** The character search as the library runs it: decode, compare, then charge the
      units the code point took against the budget. */
  method FindFirst(dec: Decoder, buf: seq<int>, str: nat, character: int, strLength: Size)
    returns (r: Option<nat>)
    requires Decodes(dec, buf) && str <= Length(buf)
    ensures r == CharSearch(dec, buf, str, character, strLength)
  {
    var cur, remaining := str, strLength;
    var temp := cur;
    while remaining > 0
      invariant cur <= Length(buf) && temp == cur
      invariant CharSearch(dec, buf, cur, character, remaining) ==
                CharSearch(dec, buf, str, character, strLength)
      decreases Length(buf) - cur
    {
      var step := dec(buf, temp);
      var ch := step.cp;
      temp := step.next;
      if ch == 0 {
        break;
      }
      if ch == character {
        return Some(cur);
      }
      remaining := SizeSub(remaining, temp - cur);
      cur := temp;
    }
    return None;
  }

  /** `findfirst(const reference_string<T> &, char32_t)`: the search over a view, bounded
      by the view's length. */
  method FindFirstInView(dec: Decoder, buf: seq<int>, str: View, character: int)
    returns (r: Option<nat>)
    requires Decodes(dec, buf) && str.start <= str.end <= Length(buf)
    requires str.end - str.start < SIZE_MODULUS
    ensures r == CharSearch(dec, buf, str.start, character, str.end - str.start)
    ensures str.end in Boundaries(dec, buf, str.start) || str.end == Length(buf) ==>
            r.Some? ==> str.start <= r.value < str.end
  {
    r := FindFirst(dec, buf, str.start, character, str.end - str.start);
    if str.end in Boundaries(dec, buf, str.start) || str.end == Length(buf) {
      CharSearchWithinBound(dec, buf, str.start, character, str.end);
    }
  }

  /** `findfirstof(T *, char32_t, size_t)` delegates to the character search. */
  method FindFirstOfChar(dec: Decoder, buf: seq<int>, str: nat, character: int, strLength: Size)
    returns (r: Option<nat>)
    requires Decodes(dec, buf) && str <= Length(buf)
    ensures r == CharSearch(dec, buf, str, character, strLength)
  {
    r := FindFirst(dec, buf, str, character, strLength);
  }

  // ---------------------------------------------------------------------------
  // Substring search: `findfirst(const T *str1, const T *str2, size_t, size_t)`.

  /** The cursors a scan from `p` can stand on: its boundaries and the terminator. */
  predicate IsCursor(dec: Decoder, buf: seq<int>, p: nat, s: nat)
    requires Decodes(dec, buf) && p <= Length(buf)
  {
    s in Boundaries(dec, buf, p) || s == Length(buf)
  }

  /** The filter-then-verify loop from haystack cursor `p`: find the next boundary holding
      the needle's first code point with the character search (always with the caller's
      original bound), accept it if `compare` over `n` units says equal, otherwise resume
      one code point past it. */
  function CandidateSearch(dec: Decoder, hay: seq<int>, p: nat, first: int, budget: Size,
                           needle: seq<int>, n0: nat, n: nat): (r: Option<nat>)
    requires Decodes(dec, hay) && p <= Length(hay)
    ensures r.Some? ==> p <= r.value < Length(hay) && dec(hay, r.value).cp == first &&
                        UnitsEqual(hay, r.value, needle, n0, n)
    decreases Length(hay) - p
  {
    match CharSearch(dec, hay, p, first, budget)
    case None => None
    case Some(q) =>
      if UnitsEqual(hay, q, needle, n0, n) then Some(q)
      else CandidateSearch(dec, hay, dec(hay, q).next, first, budget, needle, n0, n)
  }

  /** The substring search: an empty needle (zero bound, or the needle at its terminator)
      matches at once at `str1`; otherwise the needle's length defaults to `length(str2)`
      and the candidates are those holding the needle's first code point. */
  function SubstringSearch(dec: Decoder, hay: seq<int>, str1: nat, needle: seq<int>, str2: nat,
                           str1Length: Size, str2Length: Size): (r: Option<nat>)
    requires Decodes(dec, hay) && str1 <= Length(hay)
    requires Decodes(dec, needle) && str2 <= Length(needle)
    ensures str2Length == 0 || str2 == Length(needle) ==> r == Some(str1)
    ensures str2Length != 0 && str2 < Length(needle) && r.Some? ==>
              str1 <= r.value < Length(hay) && dec(hay, r.value).cp == dec(needle, str2).cp &&
              UnitsEqual(hay, r.value, needle, str2,
                         if str2Length == SIZE_MAX then Length(needle) - str2 else str2Length)
  {
    if str2Length == 0 || needle[str2] == 0 then Some(str1)
    else
      var n := if str2Length == SIZE_MAX then Length(needle) - str2 else str2Length;
      CandidateSearch(dec, hay, str1, dec(needle, str2).cp, str1Length, needle, str2, n)
  }

  /** A found candidate is a boundary of the haystack, and every earlier boundary holding
      the needle's first code point failed the comparison: candidates are tried in
      increasing order and the first verified one is returned. */
  lemma {:induction false} CandidateSearchFirst(dec: Decoder, hay: seq<int>, p: nat, first: int, budget: Size,
                                                needle: seq<int>, n0: nat, n: nat, q: nat)
    requires Decodes(dec, hay) && p <= Length(hay)
    requires CandidateSearch(dec, hay, p, first, budget, needle, n0, n) == Some(q)
    ensures q in Boundaries(dec, hay, p)
    ensures forall t :: t in Boundaries(dec, hay, p) && t < q && dec(hay, t).cp == first ==>
              !UnitsEqual(hay, t, needle, n0, n)
    decreases Length(hay) - p
  {
    var c := CharSearch(dec, hay, p, first, budget).value;
    CharSearchFound(dec, hay, p, first, budget, c);
    if !UnitsEqual(hay, c, needle, n0, n) {
      var s := dec(hay, c).next;
      CandidateSearchFirst(dec, hay, s, first, budget, needle, n0, n, q);
      BoundariesAfter(dec, hay, p, c, q);
      forall t | t in Boundaries(dec, hay, p) && t < q && dec(hay, t).cp == first
        ensures !UnitsEqual(hay, t, needle, n0, n)
      {
        if c < t {
          BoundariesAfter(dec, hay, p, c, t);
        }
      }
    }
  }

  /** Every boundary from `p` before `s` holding `first` fails the comparison. */
  predicate FailedBefore(dec: Decoder, hay: seq<int>, p: nat, s: nat, first: int,
                         needle: seq<int>, n0: nat, n: nat)
    requires Decodes(dec, hay) && p <= Length(hay)
  {
    forall t :: t in Boundaries(dec, hay, p) && t < s && dec(hay, t).cp == first ==>
      !UnitsEqual(hay, t, needle, n0, n)
  }

  /** A rejected candidate `c`, found by the character search from `p`, extends the
      failures recorded from one code point past it back to `p`. */
  lemma FailedBeforeExtend(dec: Decoder, hay: seq<int>, p: nat, first: int, budget: Size,
                           needle: seq<int>, n0: nat, n: nat, c: nat, s: nat)
    requires Decodes(dec, hay) && p <= Length(hay)
    requires CharSearch(dec, hay, p, first, budget) == Some(c)
    requires !UnitsEqual(hay, c, needle, n0, n)
    requires FailedBefore(dec, hay, dec(hay, c).next, s, first, needle, n0, n)
    ensures FailedBefore(dec, hay, p, s, first, needle, n0, n)
  {
    CharSearchFound(dec, hay, p, first, budget, c);
    forall t | t in Boundaries(dec, hay, p) && t < s && dec(hay, t).cp == first
      ensures !UnitsEqual(hay, t, needle, n0, n)
    {
      if c < t {
        BoundariesAfter(dec, hay, p, c, t);
      }
    }
  }

  /** When the search gives up, it does so at a cursor `s` from which the character
      search, run with the same original bound, no longer finds the first code point,
      and every candidate before `s` failed the comparison. */
  lemma {:induction false} CandidateSearchGivesUp(dec: Decoder, hay: seq<int>, p: nat, first: int, budget: Size,
                                                  needle: seq<int>, n0: nat, n: nat)
    requires Decodes(dec, hay) && p <= Length(hay)
    requires CandidateSearch(dec, hay, p, first, budget, needle, n0, n) == None
    ensures exists s: nat :: IsCursor(dec, hay, p, s) && CharSearch(dec, hay, s, first, budget) == None &&
              FailedBefore(dec, hay, p, s, first, needle, n0, n)
    decreases Length(hay) - p
  {
    if CharSearch(dec, hay, p, first, budget) == None {
      if p < Length(hay) {
        BoundariesStep(dec, hay, p, p);
      }
      assert IsCursor(dec, hay, p, p);
      assert FailedBefore(dec, hay, p, p, first, needle, n0, n);
    } else {
      var c := CharSearch(dec, hay, p, first, budget).value;
      CharSearchFound(dec, hay, p, first, budget, c);
      var s0 := dec(hay, c).next;
      CandidateSearchGivesUp(dec, hay, s0, first, budget, needle, n0, n);
      var s: nat :| IsCursor(dec, hay, s0, s) && CharSearch(dec, hay, s, first, budget) == None &&
               FailedBefore(dec, hay, s0, s, first, needle, n0, n);
      BoundariesAfter(dec, hay, p, c, s);
      assert IsCursor(dec, hay, p, s);
      FailedBeforeExtend(dec, hay, p, first, budget, needle, n0, n, c, s);
    }
  }

  /** With the default haystack bound the search returns NULL exactly when no boundary
      holding the first code point passes the comparison; with CandidateSearchFirst this
      makes the result the first boundary that does. */
  lemma CandidateSearchUnbounded(dec: Decoder, hay: seq<int>, p: nat, first: int,
                                 needle: seq<int>, n0: nat, n: nat)
    requires Decodes(dec, hay) && p <= Length(hay) && Length(hay) - p <= SIZE_MAX
    ensures CandidateSearch(dec, hay, p, first, SIZE_MAX, needle, n0, n) == None <==>
            forall t :: t in Boundaries(dec, hay, p) && dec(hay, t).cp == first ==>
              !UnitsEqual(hay, t, needle, n0, n)
  {
    var r := CandidateSearch(dec, hay, p, first, SIZE_MAX, needle, n0, n);
    if r.Some? {
      CandidateSearchFirst(dec, hay, p, first, SIZE_MAX, needle, n0, n, r.value);
    } else {
      CandidateSearchGivesUp(dec, hay, p, first, SIZE_MAX, needle, n0, n);
      var s: nat :| IsCursor(dec, hay, p, s) && CharSearch(dec, hay, s, first, SIZE_MAX) == None &&
               FailedBefore(dec, hay, p, s, first, needle, n0, n);
      forall t | t in Boundaries(dec, hay, p) && dec(hay, t).cp == first
        ensures !UnitsEqual(hay, t, needle, n0, n)
      {
        if s <= t {
          BoundariesTransitive(dec, hay, p, s, t);
          CharSearchUnbounded(dec, hay, s, first, t);
        }
      }
    }
  }

  /** A match found with the needle's default length is a copy of the whole needle. */
  lemma SubstringSearchMatches(dec: Decoder, hay: seq<int>, str1: nat, needle: seq<int>, str2: nat,
                               str1Length: Size, q: nat)
    requires Decodes(dec, hay) && str1 <= Length(hay)
    requires Decodes(dec, needle) && str2 < Length(needle)
    requires SubstringSearch(dec, hay, str1, needle, str2, str1Length, SIZE_MAX) == Some(q)
    ensures q + (Length(needle) - str2) <= |hay|
    ensures hay[q..q + (Length(needle) - str2)] == needle[str2..Length(needle)]
  {
    UnitsEqualIsSliceEquality(hay, q, needle, str2, Length(needle) - str2);
  }

  /** The substring search as the library runs it. */
  method FindSubstring(dec: Decoder, hay: seq<int>, str1: nat, needle: seq<int>, str2: nat,
                       str1Length: Size, str2Length: Size) returns (r: Option<nat>)
    requires Decodes(dec, hay) && str1 <= Length(hay)
    requires Decodes(dec, needle) && str2 <= Length(needle)
    ensures r == SubstringSearch(dec, hay, str1, needle, str2, str1Length, str2Length)
  {
    if str2Length == 0 || needle[str2] == 0 {
      return Some(str1);
    }
    var needleLength: nat := str2Length;
    if str2Length == SIZE_MAX {
      needleLength := Length(needle) - str2;
    }
    var firstChar := dec(needle, str2).cp;
    var cur := str1;
    while true
      invariant cur <= Length(hay)
      invariant CandidateSearch(dec, hay, cur, firstChar, str1Length, needle, str2, needleLength) ==
                SubstringSearch(dec, hay, str1, needle, str2, str1Length, str2Length)
      decreases Length(hay) - cur
    {
      var found := FindFirst(dec, hay, cur, firstChar, str1Length);
      if found.None? {
        return None;
      }
      cur := found.value;
      if UnitsEqual(hay, cur, needle, str2, needleLength) {
        return Some(cur);
      }
      cur := dec(hay, cur).next;
    }
  }

  /** `findfirst(const reference_string<T> &, const reference_string<T> &)`: both bounds
      are the views' lengths. */
  method FindSubstringInView(dec: Decoder, hay: seq<int>, str1: View, needle: seq<int>, str2: View)
    returns (r: Option<nat>)
    requires Decodes(dec, hay) && str1.start <= str1.end <= Length(hay)
    requires Decodes(dec, needle) && str2.start <= str2.end <= Length(needle)
    requires str1.end - str1.start < SIZE_MODULUS && str2.end - str2.start < SIZE_MODULUS
    ensures r == SubstringSearch(dec, hay, str1.start, needle, str2.start,
                                 str1.end - str1.start, str2.end - str2.start)
  {
    r := FindSubstring(dec, hay, str1.start, needle, str2.start,
                       str1.end - str1.start, str2.end - str2.start);
  }

  // ---------------------------------------------------------------------------
  // Worked examples of the character search.

  /** "hello" and its terminator, one unit per character. */
  const HELLO: seq<int> := [104, 101, 108, 108, 111, 0]

  /** In "hello" the first 'l' is at index 2; a bound one unit past that distance finds
      it, a bound equal to the distance does not. */
  lemma CharSearchHello()
    ensures Decodes(UnitDecode, HELLO)
    ensures CharSearch(UnitDecode, HELLO, 0, 'l' as int, SIZE_MAX) == Some(2)
    ensures CharSearch(UnitDecode, HELLO, 0, 'l' as int, 3) == Some(2)
    ensures CharSearch(UnitDecode, HELLO, 0, 'l' as int, 2) == None
    ensures CharSearch(UnitDecode, HELLO, 0, 'z' as int, SIZE_MAX) == None
  {
    UnitDecodes(HELLO);
    assert Length(HELLO) == 5;
  }

  /** UTF-16 "\u{1F600}a": a surrogate pair then 'a'. With a bound of one unit the pair,
      which starts inside the bound, is still compared; when it does not match, the
      budget 1 - 2 wraps to 2^64 - 1 and the scan goes on to find 'a' two units in. */
  lemma CharSearchStraddle()
    ensures Decodes(Utf16Decode, [0xD83D, 0xDE00, 0x61, 0])
    ensures CharSearch(Utf16Decode, [0xD83D, 0xDE00, 0x61, 0], 0, 0x1F600, 1) == Some(0)
    ensures CharSearch(Utf16Decode, [0xD83D, 0xDE00, 0x61, 0], 0, 0x61, 1) == Some(2)
  {
    var buf := [0xD83D, 0xDE00, 0x61, 0];
    Utf16Decodes(buf);
    assert Length(buf) == 3;
    assert Utf16Decode(buf, 0) == Step(0x1F600, 2);
    assert SizeSub(1, 2) == SIZE_MAX;
  }

  /** "ab" is found in "aab" at index 1: the first candidate, the 'a' at 0, fails the
      comparison, and the search resumes one code point later with the original bound. */
  lemma SubstringSearchRetries()
    ensures Decodes(UnitDecode, [97, 97, 98, 0]) && Decodes(UnitDecode, [97, 98, 0])
    ensures SubstringSearch(UnitDecode, [97, 97, 98, 0], 0, [97, 98, 0], 0, SIZE_MAX, SIZE_MAX) == Some(1)
  {
    var hay, needle := [97, 97, 98, 0], [97, 98, 0];
    LengthOf(hay, 3);
    LengthOf(needle, 2);
    UnitDecodes(hay);
    UnitDecodes(needle);
    assert !UnitsEqual(hay, 0, needle, 0, 2);
    assert UnitsEqual(hay, 1, needle, 0, 2);
    assert CharSearch(UnitDecode, hay, 1, 97, SIZE_MAX) == Some(1);
    assert CandidateSearch(UnitDecode, hay, 1, 97, SIZE_MAX, needle, 0, 2) == Some(1);
  }

  /** The haystack bound is handed unchanged to every retry, so a match can start past
      the end of the haystack view: with the view [0, 3) of "axxab", the candidate at 0
      fails, the scan from 1 still has 3 units of budget, and "ab" is found at 3. */
  lemma SubstringSearchPastView()
    ensures Decodes(UnitDecode, [97, 120, 120, 97, 98, 0]) && Decodes(UnitDecode, [97, 98, 0])
    ensures SubstringSearch(UnitDecode, [97, 120, 120, 97, 98, 0], 0, [97, 98, 0], 0, 3, 2) == Some(3)
  {
    var hay, needle := [97, 120, 120, 97, 98, 0], [97, 98, 0];
    LengthOf(hay, 5);
    LengthOf(needle, 2);
    UnitDecodes(hay);
    UnitDecodes(needle);
    assert !UnitsEqual(hay, 0, needle, 0, 2);
    assert UnitsEqual(hay, 3, needle, 0, 2);
    assert CharSearch(UnitDecode, hay, 0, 97, 3) == Some(0);
    assert CharSearch(UnitDecode, hay, 1, 97, 3) == Some(3);
    assert CandidateSearch(UnitDecode, hay, 1, 97, 3, needle, 0, 2) == Some(3);
  }

  /** A needle length past the needle's terminator makes `compare` check the haystack unit
      under that terminator too: "ab" with `str2Length` 3 is not found in "abc", where it
      occurs with a 'c' after it, but is found in "ab", which ends with it. */
  lemma SubstringSearchOverlongNeedle()
    ensures Decodes(UnitDecode, [97, 98, 99, 0]) && Decodes(UnitDecode, [97, 98, 0])
    ensures SubstringSearch(UnitDecode, [97, 98, 99, 0], 0, [97, 98, 0], 0, SIZE_MAX, 3) == None
    ensures SubstringSearch(UnitDecode, [97, 98, 0], 0, [97, 98, 0], 0, SIZE_MAX, 3) == Some(0)
  {
    var hay, needle := [97, 98, 99, 0], [97, 98, 0];
    LengthOf(hay, 3);
    LengthOf(needle, 2);
    UnitDecodes(hay);
    UnitDecodes(needle);
    assert !UnitsEqual(hay, 0, needle, 0, 3);
    assert CharSearch(UnitDecode, hay, 0, 97, SIZE_MAX) == Some(0);
    assert CharSearch(UnitDecode, hay, 1, 97, SIZE_MAX) == None;
    assert UnitsEqual(needle, 0, needle, 0, 3);
    assert CharSearch(UnitDecode, needle, 0, 97, SIZE_MAX) == Some(0);
  }

  /** "xyz" is not found in "abc". */
  lemma SubstringSearchAbsent()
    ensures Decodes(UnitDecode, [97, 98, 99, 0]) && Decodes(UnitDecode, [120, 121, 122, 0])
    ensures SubstringSearch(UnitDecode, [97, 98, 99, 0], 0, [120, 121, 122, 0], 0, SIZE_MAX, SIZE_MAX) == None
  {
    var hay, needle := [97, 98, 99, 0], [120, 121, 122, 0];
    LengthOf(hay, 3);
    LengthOf(needle, 3);
    UnitDecodes(hay);
    UnitDecodes(needle);
    assert CharSearch(UnitDecode, hay, 0, 120, SIZE_MAX) == None;
  }

  /** An empty needle matches at once, wherever the haystack cursor stands. */
  lemma SubstringSearchEmptyNeedle(hay: seq<int>, str1: nat, str1Length: Size)
    requires Decodes(UnitDecode, hay) && str1 <= Length(hay)
    ensures Decodes(UnitDecode, [0])
    ensures SubstringSearch(UnitDecode, hay, str1, [0], 0, str1Length, SIZE_MAX) == Some(str1)
  {
    UnitDecodes([0]);
  }
}
