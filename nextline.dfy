/** The line splitter `nextline(reference_string<T> &line, T *&str)`: takes the line at
    the cursor into a view and moves the cursor to the start of the next line. A line
    ends at "\n" or at "\r\n"; a carriage return not followed by a line feed is ordinary
    content. */
module Lines {
  import opened Buffers
  import opened Decoding
  import opened Find

  const LF: int := 10
  const CR: int := 13

  /** What one call yields: the line [start, end) without its delimiter, and the cursor
      `next` the call leaves behind. */
  datatype LineSpan = LineSpan(start: nat, end: nat, next: nat)

  /** A line delimiter starts at cursor `t`: a line feed, or a carriage return whose
      next code point is a line feed. */
  predicate DelimiterAt(dec: Decoder, buf: seq<int>, t: nat)
    requires Decodes(dec, buf) && t < Length(buf)
  {
    var step := dec(buf, t);
    step.cp == LF || (step.cp == CR && dec(buf, step.next).cp == LF)
  }

  /** Where the line starting at `p` ends: the first boundary holding a delimiter, or
      the terminator when there is none. */
  function LineEnd(dec: Decoder, buf: seq<int>, p: nat): (e: nat)
    requires Decodes(dec, buf) && p <= Length(buf)
    ensures p <= e <= Length(buf)
    ensures e < Length(buf) ==> DelimiterAt(dec, buf, e)
    decreases Length(buf) - p
  {
    if p == Length(buf) then p
    else if DelimiterAt(dec, buf, p) then p
    else LineEnd(dec, buf, dec(buf, p).next)
  }

  /** The cursor after the delimiter at `e` (or the terminator itself when `e` is it). */
  function PastDelimiter(dec: Decoder, buf: seq<int>, e: nat): (n: nat)
    requires Decodes(dec, buf) && e <= Length(buf)
    requires e < Length(buf) ==> DelimiterAt(dec, buf, e)
    ensures e < Length(buf) ==> e < n <= Length(buf)
    ensures e == Length(buf) ==> n == e
  {
    if e == Length(buf) then e
    else
      var step := dec(buf, e);
      if step.cp == LF then step.next
      else
        assert StepValid(buf, step.next, dec(buf, step.next));
        dec(buf, step.next).next
  }

  /** One call of the line splitter from cursor `s`: None (the call returns false) when
      the cursor is on the terminator, else the line and the new cursor. */
  function SplitLine(dec: Decoder, buf: seq<int>, s: nat): (r: Option<LineSpan>)
    requires Decodes(dec, buf) && s <= Length(buf)
    ensures r.None? <==> s == Length(buf)
    ensures r.Some? ==> r.value.start == s && s <= r.value.end <= r.value.next <= Length(buf)
    ensures r.Some? ==> s < r.value.next
  {
    if buf[s] == 0 then None
    else
      var e := LineEnd(dec, buf, s);
      Some(LineSpan(s, e, PastDelimiter(dec, buf, e)))
  }

  // ---------------------------------------------------------------------------
  // What one call promises.

  /** The line ends at the first delimiter after its start: the end is a boundary with a
      delimiter (or the terminator), and no boundary before it starts a delimiter, so the
      line never contains one. */
  lemma {:induction false} LineEndFirst(dec: Decoder, buf: seq<int>, p: nat, e: nat)
    requires Decodes(dec, buf) && p <= Length(buf)
    ensures LineEnd(dec, buf, p) == e <==>
            ((e in Boundaries(dec, buf, p) && DelimiterAt(dec, buf, e)) || e == Length(buf)) &&
            forall t :: t in Boundaries(dec, buf, p) && t < e ==> !DelimiterAt(dec, buf, t)
    decreases Length(buf) - p
  {
    if p < Length(buf) {
      var n := dec(buf, p).next;
      BoundariesStep(dec, buf, p, e);
      BoundariesStep(dec, buf, p, p);
      if !DelimiterAt(dec, buf, p) {
        LineEndFirst(dec, buf, n, e);
        forall t | t in Boundaries(dec, buf, p) && t != p
          ensures t in Boundaries(dec, buf, n)
        {
          BoundariesStep(dec, buf, p, t);
        }
        forall t | t in Boundaries(dec, buf, n)
          ensures t in Boundaries(dec, buf, p) && p < t
        {
          BoundariesStep(dec, buf, p, t);
        }
      }
    }
  }

  /** The code point after a boundary starts a boundary too, unless it is the terminator. */
  lemma NextIsCursor(dec: Decoder, buf: seq<int>, p: nat, t: nat)
    requires Decodes(dec, buf) && p <= Length(buf) && t in Boundaries(dec, buf, p)
    ensures IsCursor(dec, buf, p, dec(buf, t).next)
  {
    var n := dec(buf, t).next;
    if n < Length(buf) {
      BoundariesStep(dec, buf, t, n);
      BoundariesSubset(dec, buf, p, t, n);
    }
  }

  /** The three ways a call that finds a line can end, as the splitter distinguishes them. */
  lemma SplitLineCases(dec: Decoder, buf: seq<int>, s: nat)
    requires Decodes(dec, buf) && s < Length(buf)
    ensures var r := SplitLine(dec, buf, s); var sp := r.value;
            r.Some? &&
            IsCursor(dec, buf, s, sp.end) && IsCursor(dec, buf, s, sp.next) &&
            // "\n": the line ends at the line feed; the cursor moves just past it.
            (sp.end < Length(buf) && dec(buf, sp.end).cp == LF ==>
               sp.next == dec(buf, sp.end).next) &&
            // "\r\n": the line ends at the carriage return; the cursor moves past the line feed.
            (sp.end < Length(buf) && dec(buf, sp.end).cp == CR ==>
               dec(buf, dec(buf, sp.end).next).cp == LF &&
               sp.next == dec(buf, dec(buf, sp.end).next).next) &&
            // No delimiter: the line runs to the terminator, where the cursor stops.
            (sp.end == Length(buf) ==> sp.next == Length(buf))
  {
    var e := LineEnd(dec, buf, s);
    LineEndFirst(dec, buf, s, e);
    if e < Length(buf) {
      NextIsCursor(dec, buf, s, e);
      var m := dec(buf, e).next;
      if dec(buf, e).cp == CR {
        assert m < Length(buf) by {
          assert StepValid(buf, m, dec(buf, m));
        }
        NextIsCursor(dec, buf, s, m);
      }
    }
  }

  // ---------------------------------------------------------------------------
  // Repeated calls.

  /** The lines repeated calls produce from cursor `p` until the call that returns false. */
  function Lines(dec: Decoder, buf: seq<int>, p: nat): (ls: seq<LineSpan>)
    requires Decodes(dec, buf) && p <= Length(buf)
    ensures ls == [] <==> p == Length(buf)
    decreases Length(buf) - p
  {
    match SplitLine(dec, buf, p)
    case None => []
    case Some(sp) => [sp] + Lines(dec, buf, sp.next)
  }

  /** The units a sequence of lines covers, each with its delimiter. */
  function Covered(buf: seq<int>, ls: seq<LineSpan>): (u: seq<int>)
    requires forall i :: 0 <= i < |ls| ==> ls[i].start <= ls[i].next <= |buf|
  {
    if ls == [] then [] else buf[ls[0].start..ls[0].next] + Covered(buf, ls[1..])
  }

  /** The lines repeated calls produce are contiguous spans: each starts where the
      previous call left the cursor, and the last stops at the terminator. */
  lemma {:induction false} LinesContiguous(dec: Decoder, buf: seq<int>, p: nat)
    requires Decodes(dec, buf) && p <= Length(buf)
    ensures var ls := Lines(dec, buf, p);
            (forall i :: 0 <= i < |ls| ==> ls[i].start <= ls[i].end <= ls[i].next <= Length(buf)) &&
            (ls != [] ==> ls[0].start == p && ls[|ls| - 1].next == Length(buf)) &&
            (forall i :: 0 <= i < |ls| - 1 ==> ls[i].next == ls[i + 1].start)
    decreases Length(buf) - p
  {
    var ls := Lines(dec, buf, p);
    if p < Length(buf) {
      var sp := SplitLine(dec, buf, p).value;
      LinesContiguous(dec, buf, sp.next);
      assert ls == [sp] + Lines(dec, buf, sp.next);
    }
  }

  /** Repeated calls partition the buffer: together with their delimiters the lines
      cover the units from `p` to the terminator exactly once, in order. */
  lemma {:induction false} LinesPartition(dec: Decoder, buf: seq<int>, p: nat)
    requires Decodes(dec, buf) && p <= Length(buf)
    ensures var ls := Lines(dec, buf, p);
            (forall i :: 0 <= i < |ls| ==> ls[i].start <= ls[i].next <= |buf|) &&
            Covered(buf, ls) == buf[p..Length(buf)]
    decreases Length(buf) - p
  {
    if p < Length(buf) {
      var sp := SplitLine(dec, buf, p).value;
      var rest := Lines(dec, buf, sp.next);
      LinesPartition(dec, buf, sp.next);
      LinesStep(dec, buf, p);
      CoveredCons(buf, sp, rest);
      SliceSplit(buf, p, sp.next, Length(buf));
    }
  }

  /** Before the terminator one call yields a line and the rest come from its cursor. */
  lemma LinesStep(dec: Decoder, buf: seq<int>, p: nat)
    requires Decodes(dec, buf) && p < Length(buf)
    ensures SplitLine(dec, buf, p).Some?
    ensures Lines(dec, buf, p) ==
            [SplitLine(dec, buf, p).value] + Lines(dec, buf, SplitLine(dec, buf, p).value.next)
  {
  }

  lemma SliceSplit(buf: seq<int>, a: nat, b: nat, c: nat)
    requires a <= b <= c <= |buf|
    ensures buf[a..c] == buf[a..b] + buf[b..c]
  {
  }

  lemma CoveredCons(buf: seq<int>, sp: LineSpan, rest: seq<LineSpan>)
    requires sp.start <= sp.next <= |buf|
    requires forall i :: 0 <= i < |rest| ==> rest[i].start <= rest[i].next <= |buf|
    ensures var ls := [sp] + rest;
            (forall i :: 0 <= i < |ls| ==> ls[i].start <= ls[i].next <= |buf|) &&
            Covered(buf, ls) == buf[sp.start..sp.next] + Covered(buf, rest)
  {
    assert ([sp] + rest)[1..] == rest;
  }

  // ---------------------------------------------------------------------------
  // The splitter as the library runs it.

  /** `nextline`: on the terminator, answer false and touch nothing; otherwise set the
      view's start to the cursor, scan code point by code point for "\n" or "\r\n",
      set the view's end before the delimiter and move the cursor past it. The returned
      `rest` is the new value of the caller's cursor. */
  method NextLine(dec: Decoder, buf: seq<int>, line: View, str: nat)
    returns (found: bool, rest: nat)
    requires Decodes(dec, buf) && str <= Length(buf)
    modifies line
    ensures found <==> buf[str] != 0
    ensures found ==> SplitLine(dec, buf, str) == Some(LineSpan(line.start, line.end, rest))
    ensures !found ==> rest == str && line.start == old(line.start) && line.end == old(line.end)
  {
    if buf[str] == 0 {
      return false, str;
    }
    line.start := str;
    var cur := str;
    var temp := cur;
    while true
      invariant str <= cur <= Length(buf) && temp == cur && line.start == str
      invariant LineEnd(dec, buf, cur) == LineEnd(dec, buf, str)
      decreases Length(buf) - cur
    {
      var step := dec(buf, temp);
      var ch := step.cp;
      temp := step.next;
      if ch == 0 {
        break;
      }
      if ch == CR {
        var temp2 := temp;
        var step2 := dec(buf, temp2);
        temp2 := step2.next;
        if step2.cp == LF {
          line.end := cur;
          return true, temp2;
        }
      } else if ch == LF {
        line.end := cur;
        return true, temp;
      }
      cur := temp;
    }
    line.end := cur;
    return true, cur;
  }

  // ---------------------------------------------------------------------------
  // Worked examples, one unit per character.

  /** "a\r\nb": the line "a" ends at the carriage return and the cursor moves past the
      line feed; the last line "b" runs to the terminator; the next call returns false. */
  lemma SplitCrLf()
    ensures Decodes(UnitDecode, [97, 13, 10, 98, 0])
    ensures Lines(UnitDecode, [97, 13, 10, 98, 0], 0) == [LineSpan(0, 1, 3), LineSpan(3, 4, 4)]
  {
    var buf := [97, 13, 10, 98, 0];
    LengthOf(buf, 4);
    UnitDecodes(buf);
    assert DelimiterAt(UnitDecode, buf, 1);
    assert LineEnd(UnitDecode, buf, 0) == 1;
    assert LineEnd(UnitDecode, buf, 3) == 4;
  }

  /** "a\rb": a carriage return without a line feed is part of the line. */
  lemma SplitBareCr()
    ensures Decodes(UnitDecode, [97, 13, 98, 0])
    ensures Lines(UnitDecode, [97, 13, 98, 0], 0) == [LineSpan(0, 3, 3)]
  {
    var buf := [97, 13, 98, 0];
    LengthOf(buf, 3);
    UnitDecodes(buf);
    assert !DelimiterAt(UnitDecode, buf, 1);
    assert LineEnd(UnitDecode, buf, 0) == 3;
  }

  /** "a\nb\n": two lines; a delimiter at the very end yields no trailing empty line. */
  lemma SplitTrailingLf()
    ensures Decodes(UnitDecode, [97, 10, 98, 10, 0])
    ensures Lines(UnitDecode, [97, 10, 98, 10, 0], 0) == [LineSpan(0, 1, 2), LineSpan(2, 3, 4)]
  {
    var buf := [97, 10, 98, 10, 0];
    LengthOf(buf, 4);
    UnitDecodes(buf);
    assert LineEnd(UnitDecode, buf, 0) == 1;
    assert LineEnd(UnitDecode, buf, 2) == 3;
  }

  /** "\n": one empty line. An empty buffer yields no line at all. */
  lemma SplitEmptyLines()
    ensures Decodes(UnitDecode, [10, 0]) && Decodes(UnitDecode, [0])
    ensures Lines(UnitDecode, [10, 0], 0) == [LineSpan(0, 0, 1)]
    ensures Lines(UnitDecode, [0], 0) == []
  {
    LengthOf([10, 0], 1);
    LengthOf([0], 0);
    UnitDecodes([10, 0]);
    UnitDecodes([0]);
  }
}
