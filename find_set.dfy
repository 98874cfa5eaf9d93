/** The set scanner `findfirstof(const T *str, const T *charSet, size_t, size_t)`: the
    first code point of the source that occurs among the code points of a second,
    null-terminated "set" string. */
module FindSet {
  import opened Buffers
  import opened Decoding
  import opened Find

  // ---------------------------------------------------------------------------
  // The inner loop: is `ch` among the set's code points?

  /** The inner loop over the set, from set cursor `q` with set budget `tl`. Every set
      code point that does not match charges `w` units against the set budget, where `w`
      is the width of the SOURCE code point being looked up, not of the set's. */
  function SetContains(dec: Decoder, chars: seq<int>, q: nat, ch: int, tl: Size, w: nat): (r: bool)
    requires Decodes(dec, chars) && q <= Length(chars)
    ensures r ==> ch != 0 && q < Length(chars) && tl != 0
    decreases Length(chars) - q
  {
    if tl == 0 then false
    else
      var step := dec(chars, q);
      if step.cp == 0 then false
      else if step.cp == ch then true
      else SetContains(dec, chars, step.next, ch, SizeSub(tl, w), w)
  }

  /** The set budget when the inner loop reaches the `j`-th set code point: `j` charges
      of `w` units each, wrapping as `size_t` does. */
  function SetBudget(tl: Size, w: nat, j: nat): (b: Size)
  {
    SizeSub(tl, j * w)
  }

  /** The set budget is still non-zero when the `k`-th set code point is decoded. */
  predicate BudgetLasts(tl: Size, w: nat, k: nat) {
    forall j :: 0 <= j <= k ==> SetBudget(tl, w, j) != 0
  }

  lemma ModSub(a: int, c: int)
    ensures (a % SIZE_MODULUS - c) % SIZE_MODULUS == (a - c) % SIZE_MODULUS
  {
    var m := SIZE_MODULUS;
    assert a == (a / m) * m + a % m;
    assert a - c == (a / m) * m + (a % m - c);
    assert (a - c) % m == (a % m - c) % m by {
      var x := a % m - c;
      assert x == (x / m) * m + x % m;
      assert a - c == (a / m + x / m) * m + x % m;
    }
  }

  /** One more charge of `w` moves every later index's budget down by one step. */
  lemma SetBudgetStep(tl: Size, w: nat, j: nat)
    requires j >= 1
    ensures SetBudget(SizeSub(tl, w), w, j - 1) == SetBudget(tl, w, j)
  {
    assert w + (j - 1) * w == j * w;
    ModSub(tl - w, (j - 1) * w);
  }

  /** A budget that lasts `k` steps after one charge of `w` lasts `k + 1` steps before it. */
  lemma BudgetLastsBack(tl: Size, w: nat, k: nat)
    requires tl != 0 && BudgetLasts(SizeSub(tl, w), w, k)
    ensures BudgetLasts(tl, w, k + 1)
  {
    forall j | 0 <= j <= k + 1 ensures SetBudget(tl, w, j) != 0 {
      if j >= 1 {
        SetBudgetStep(tl, w, j);
        assert SetBudget(SizeSub(tl, w), w, j - 1) != 0;
      } else {
        assert SetBudget(tl, w, 0) == tl;
      }
    }
  }

  /** A budget that lasts `k + 1` steps still lasts `k` steps after one charge of `w`. */
  lemma BudgetLastsOn(tl: Size, w: nat, k: nat)
    requires BudgetLasts(tl, w, k + 1)
    ensures BudgetLasts(SizeSub(tl, w), w, k)
  {
    forall j | 0 <= j <= k ensures SetBudget(SizeSub(tl, w), w, j) != 0 {
      SetBudgetStep(tl, w, j + 1);
      assert SetBudget(tl, w, j + 1) != 0;
    }
  }

  /** The inner loop finds `ch` exactly when some set code point (the `k`-th) equals it
      and the set budget has not reached 0 by the time that code point is decoded. */
  lemma {:induction false} SetContainsIndexed(dec: Decoder, chars: seq<int>, q: nat, ch: int, tl: Size, w: nat)
    requires Decodes(dec, chars) && q <= Length(chars)
    ensures var bs := Boundaries(dec, chars, q);
            SetContains(dec, chars, q, ch, tl, w) <==>
            exists k :: 0 <= k < |bs| && dec(chars, bs[k]).cp == ch &&
                        BudgetLasts(tl, w, k)
    decreases Length(chars) - q
  {
    var bs := Boundaries(dec, chars, q);
    assert StepValid(chars, q, dec(chars, q));
    if q < Length(chars) {
      var n := dec(chars, q).next;
      var tl' := SizeSub(tl, w);
      var bs' := Boundaries(dec, chars, n);
      assert bs == [q] + bs';
      assert SetBudget(tl, w, 0) == tl;
      if tl != 0 && dec(chars, q).cp == ch {
        assert bs[0] == q;
        assert BudgetLasts(tl, w, 0);
      } else if tl != 0 {
        SetContainsIndexed(dec, chars, n, ch, tl', w);
        if SetContains(dec, chars, q, ch, tl, w) {
          var k' :| 0 <= k' < |bs'| && dec(chars, bs'[k']).cp == ch &&
                    BudgetLasts(tl', w, k');
          assert bs[k' + 1] == bs'[k'];
          BudgetLastsBack(tl, w, k');
        }
        if exists k :: 0 <= k < |bs| && dec(chars, bs[k]).cp == ch &&
                       BudgetLasts(tl, w, k) {
          var k :| 0 <= k < |bs| && dec(chars, bs[k]).cp == ch &&
                   BudgetLasts(tl, w, k);
          assert bs'[k - 1] == bs[k];
          BudgetLastsOn(tl, w, k - 1);
        }
      }
    }
  }

  /** When source and set are decoded one unit per code point, the set budget is an
      exact bound: `ch` is found iff it occurs among the first `tl` units of the set. */
  lemma {:induction false} SetContainsUnit(chars: seq<int>, q: nat, ch: int, tl: Size)
    requires IsBuffer(chars) && q <= Length(chars)
    ensures Decodes(UnitDecode, chars)
    ensures SetContains(UnitDecode, chars, q, ch, tl, 1) <==>
            exists t :: q <= t < Length(chars) && t - q < tl && chars[t] == ch
    decreases Length(chars) - q
  {
    UnitDecodes(chars);
    if tl != 0 && q < Length(chars) && chars[q] != ch {
      SetContainsUnit(chars, q + 1, ch, tl - 1);
      if exists t :: q <= t < Length(chars) && t - q < tl && chars[t] == ch {
        var t :| q <= t < Length(chars) && t - q < tl && chars[t] == ch;
        assert q + 1 <= t && t - (q + 1) < tl - 1;
      }
    }
  }

  // ---------------------------------------------------------------------------
  // The outer loop over the source.

  /** The source code point at boundary `t` is found in the set (the inner loop's answer
      for it, charging its own width). */
  predicate InSet(dec: Decoder, src: seq<int>, t: nat, chars: seq<int>, s0: nat, setLength: Size)
    requires Decodes(dec, src) && t < Length(src)
    requires Decodes(dec, chars) && s0 <= Length(chars)
  {
    SetContains(dec, chars, s0, dec(src, t).cp, setLength, dec(src, t).next - t)
  }

  /** The position the set search returns, or None for NULL. */
  function SetSearch(dec: Decoder, src: seq<int>, p: nat, chars: seq<int>, s0: nat,
                     budget: Size, setLength: Size): (r: Option<nat>)
    requires Decodes(dec, src) && p <= Length(src)
    requires Decodes(dec, chars) && s0 <= Length(chars)
    ensures r.Some? ==> p <= r.value < Length(src) && InSet(dec, src, r.value, chars, s0, setLength)
    decreases Length(src) - p
  {
    if budget == 0 then None
    else
      var step := dec(src, p);
      if step.cp == 0 then None
      else if SetContains(dec, chars, s0, step.cp, setLength, step.next - p) then Some(p)
      else SetSearch(dec, src, step.next, chars, s0, SizeSub(budget, step.next - p), setLength)
  }

  /** `q` is the first source boundary the scan reaches whose code point is in the set. */
  predicate FirstInSetAt(dec: Decoder, src: seq<int>, p: nat, budget: Size,
                         chars: seq<int>, s0: nat, setLength: Size, q: nat)
    requires Decodes(dec, src) && p <= Length(src)
    requires Decodes(dec, chars) && s0 <= Length(chars)
  {
    Reached(dec, src, p, budget, q) && InSet(dec, src, q, chars, s0, setLength) &&
    forall t :: t in Boundaries(dec, src, p) && t < q ==> !InSet(dec, src, t, chars, s0, setLength)
  }

  /** The set search returns exactly the first reached source boundary found in the set. */
  lemma {:induction false} SetSearchFinds(dec: Decoder, src: seq<int>, p: nat, chars: seq<int>, s0: nat,
                                          budget: Size, setLength: Size, q: nat)
    requires Decodes(dec, src) && p <= Length(src)
    requires Decodes(dec, chars) && s0 <= Length(chars)
    ensures SetSearch(dec, src, p, chars, s0, budget, setLength) == Some(q) <==>
            FirstInSetAt(dec, src, p, budget, chars, s0, setLength, q)
    decreases Length(src) - p
  {
    if p < Length(src) {
      var n := dec(src, p).next;
      var b' := SizeSub(budget, n - p);
      ReachedStep(dec, src, p, budget, q);
      BoundariesStep(dec, src, p, q);
      if budget != 0 && !InSet(dec, src, p, chars, s0, setLength) {
        SetSearchFinds(dec, src, n, chars, s0, b', setLength, q);
        if q != p {
          forall t | t in Boundaries(dec, src, p) && t != p
            ensures t in Boundaries(dec, src, n)
          {
            BoundariesStep(dec, src, p, t);
          }
          assert FirstInSetAt(dec, src, p, budget, chars, s0, setLength, q) <==>
                 FirstInSetAt(dec, src, n, b', chars, s0, setLength, q);
        }
      }
    }
  }

  /** The set search returns NULL exactly when no reached source boundary is in the set. */
  lemma {:induction false} SetSearchMisses(dec: Decoder, src: seq<int>, p: nat, chars: seq<int>, s0: nat,
                                           budget: Size, setLength: Size)
    requires Decodes(dec, src) && p <= Length(src)
    requires Decodes(dec, chars) && s0 <= Length(chars)
    ensures SetSearch(dec, src, p, chars, s0, budget, setLength) == None <==>
            forall q :: Reached(dec, src, p, budget, q) ==> !InSet(dec, src, q, chars, s0, setLength)
    decreases Length(src) - p
  {
    if p == Length(src) {
      assert Boundaries(dec, src, p) == [];
    } else if budget == 0 {
      forall q | Reached(dec, src, p, budget, q) ensures false {
        ReachedStep(dec, src, p, budget, q);
      }
    } else if InSet(dec, src, p, chars, s0, setLength) {
      ReachedStep(dec, src, p, budget, p);
    } else {
      var n := dec(src, p).next;
      var b' := SizeSub(budget, n - p);
      SetSearchMisses(dec, src, n, chars, s0, b', setLength);
      forall q | Reached(dec, src, p, budget, q) && q != p
        ensures Reached(dec, src, n, b', q)
      {
        ReachedStep(dec, src, p, budget, q);
      }
      forall q | Reached(dec, src, n, b', q)
        ensures q != p && Reached(dec, src, p, budget, q)
      {
        BoundariesStep(dec, src, p, q);
        ReachedStep(dec, src, p, budget, q);
      }
    }
  }

  /** With the default bound on a source shorter than it, the set search returns the
      first boundary before the terminator whose code point is found in the set, or NULL
      when there is none. */
  lemma SetSearchUnbounded(dec: Decoder, src: seq<int>, p: nat, chars: seq<int>, s0: nat,
                           setLength: Size, q: nat)
    requires Decodes(dec, src) && p <= Length(src) && Length(src) - p <= SIZE_MAX
    requires Decodes(dec, chars) && s0 <= Length(chars)
    ensures SetSearch(dec, src, p, chars, s0, SIZE_MAX, setLength) == Some(q) <==>
            q in Boundaries(dec, src, p) && InSet(dec, src, q, chars, s0, setLength) &&
            forall t :: t in Boundaries(dec, src, p) && t < q ==> !InSet(dec, src, t, chars, s0, setLength)
    ensures SetSearch(dec, src, p, chars, s0, SIZE_MAX, setLength) == None <==>
            forall t :: t in Boundaries(dec, src, p) ==> !InSet(dec, src, t, chars, s0, setLength)
  {
    forall t | t in Boundaries(dec, src, p) ensures Reached(dec, src, p, SIZE_MAX, t) {
      UnboundedReaches(dec, src, p, t);
    }
    SetSearchFinds(dec, src, p, chars, s0, SIZE_MAX, setLength, q);
    SetSearchMisses(dec, src, p, chars, s0, SIZE_MAX, setLength);
  }

  /** The set search as the library runs it: for each source code point, scan the set,
      charging the source code point's width against the set budget per set code point. */
  method FindFirstOf(dec: Decoder, src: seq<int>, str: nat, chars: seq<int>, charSet: nat,
                     strLength: Size, setLength: Size)
    returns (r: Option<nat>)
    requires Decodes(dec, src) && str <= Length(src)
    requires Decodes(dec, chars) && charSet <= Length(chars)
    ensures r == SetSearch(dec, src, str, chars, charSet, strLength, setLength)
  {
    var cur, remaining := str, strLength;
    var temp := cur;
    while remaining > 0
      invariant cur <= Length(src) && temp == cur
      invariant SetSearch(dec, src, cur, chars, charSet, remaining, setLength) ==
                SetSearch(dec, src, str, chars, charSet, strLength, setLength)
      decreases Length(src) - cur
    {
      var step := dec(src, temp);
      var ch := step.cp;
      temp := step.next;
      if ch == 0 {
        break;
      }
      var tempSet := charSet;
      var tempLength := setLength;
      while tempLength > 0
        invariant tempSet <= Length(chars)
        invariant SetContains(dec, chars, tempSet, ch, tempLength, temp - cur) ==
                  SetContains(dec, chars, charSet, ch, setLength, temp - cur)
        decreases Length(chars) - tempSet
      {
        var step2 := dec(chars, tempSet);
        var ch2 := step2.cp;
        tempSet := step2.next;
        if ch2 == 0 {
          break;
        }
        if ch2 == ch {
          return Some(cur);
        }
        tempLength := SizeSub(tempLength, temp - cur);
      }
      remaining := SizeSub(remaining, temp - cur);
      cur := temp;
    }
    return None;
  }

  // ---------------------------------------------------------------------------
  // Worked examples.

  const OL: seq<int> := [111, 108, 0]

  /** "hello" against the set "ol": 'l' at index 2 is the first source character in the
      chars, though 'o' comes first in the set. */
  lemma SetSearchHello()
    ensures Decodes(UnitDecode, HELLO) && Decodes(UnitDecode, OL)
    ensures SetSearch(UnitDecode, HELLO, 0, OL, 0, SIZE_MAX, SIZE_MAX) == Some(2)
  {
    LengthOf(HELLO, 5);
    LengthOf(OL, 2);
    UnitDecodes(HELLO);
    UnitDecodes(OL);
    SetContainsUnit(OL, 0, 104, SIZE_MAX);
    SetContainsUnit(OL, 0, 101, SIZE_MAX);
    SetContainsUnit(OL, 0, 108, SIZE_MAX);
  }

  /** The set budget is charged by the source's width. The source is one surrogate pair
      (two units); the set "ab" followed by that same pair spans four units and is given
      exactly that bound. After 'a' and 'b' fail to match, two charges of two units leave
      the set budget at 0, so the pair in the set is never compared and the search
      returns NULL; with the default bound the same search finds the pair at index 0. */
  lemma SetBudgetChargesSourceWidth()
    ensures Decodes(Utf16Decode, [0xD83D, 0xDE00, 0])
    ensures Decodes(Utf16Decode, [0x61, 0x62, 0xD83D, 0xDE00, 0])
    ensures SetSearch(Utf16Decode, [0xD83D, 0xDE00, 0], 0, [0x61, 0x62, 0xD83D, 0xDE00, 0], 0, SIZE_MAX, 4) == None
    ensures SetSearch(Utf16Decode, [0xD83D, 0xDE00, 0], 0, [0x61, 0x62, 0xD83D, 0xDE00, 0], 0, SIZE_MAX, SIZE_MAX) == Some(0)
  {
    var src, chars := [0xD83D, 0xDE00, 0], [0x61, 0x62, 0xD83D, 0xDE00, 0];
    LengthOf(src, 2);
    LengthOf(chars, 4);
    Utf16Decodes(src);
    Utf16Decodes(chars);
    assert Utf16Decode(src, 0) == Step(0x1F600, 2);
    assert Utf16Decode(chars, 0) == Step(0x61, 1);
    assert Utf16Decode(chars, 1) == Step(0x62, 2);
    assert Utf16Decode(chars, 2) == Step(0x1F600, 4);
  }
}
