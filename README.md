# drsl string scanning, modelled in Dafny

This project models the scanning core of the `drsl` header library:
- the character search `findfirst(str, character, strLength)`;
- the substring search `findfirst(str1, str2, str1Length, str2Length)`;
- the set search `findfirstof(str, charSet, strLength, setLength)`;
- the `reference_string` overloads of the character search and the substring search (the set search has none);
- the line splitter `nextline(line, str)`.

All of them work on null-terminated buffers of code units that a decoder (`nextchar` / `getchar`) reads one code point at a time.

How the model represents the C++:
- **Buffers.** A buffer is a `seq<int>` of code units containing a 0. A pointer into it is a `nat` cursor, and a NULL result is `None`.
- **Decoder.** The decoder is a parameter `dec` of type `(seq<int>, nat) -> Step`. The scanners rely only on its contract `Decodes`: at the terminator it yields code point 0; anywhere before, it yields a non-zero code point that takes at least one unit and does not run past the terminator. Two concrete decoders meet the contract and are used in the worked examples: `UnitDecode` (one unit per code point) and `Utf16Decode` (surrogate pairs).
- **Bounds.** A `size_t` bound is a `Size` in [0, 2^64). The loops' `strLength -= temp - str` is the wrapping `SizeSub`. The default argument `-1` is `SIZE_MAX`.
- **Comparator.** `compare(a, b, n) == 0` is `UnitsEqual`. It compares unit by unit and stops early at a terminator that both strings share. So when an explicit `str2Length` runs past the needle's terminator, a candidate passes only where the haystack ends together with the needle; an occurrence followed by more haystack units fails (`UnitsEqualPastNeedle`, with the example `SubstringSearchOverlongNeedle`).
- **Views.** `reference_string<T>` is the class `View` with fields `start` and `end`. Its `length` is `end - start`. `nextline` writes the view's fields and returns the caller's new cursor `rest`.

Each loop of the source is a `method` with the same loop and the same early returns: `FindFirst`, `FindSubstring`, `FindFirstOf` and `NextLine`. Each method is proved equal to a recursive specification function: `CharSearch`, `SubstringSearch`, `SetSearch` and `SplitLine`. Lemmas characterise `CharSearch`, `SetSearch` and `SplitLine` without recursion, in both directions. For `SubstringSearch` the characterisation is partial: `CandidateSearchFirst` says a result is the first candidate that passes `compare`; with an explicit haystack bound, `CandidateSearchGivesUp` gives only the NULL direction, stated through `CharSearch`; and only with the default bound is there an if-and-only-if (`CandidateSearchUnbounded`).

The source's budget loop behaves as follows. Before each code point the scan checks `strLength > 0`, then subtracts that code point's width with wrap-around.
- After the code points up to boundary `t` are consumed, the remaining budget is `(B - (t - p)) mod 2^64`.
- The scan therefore stops exactly at a boundary whose offset from the start is `B` modulo 2^64. `Reached` states this.
- A code point that starts within the budget but straddles its end is still decoded and compared. If it does not match, the budget wraps to a huge value and the scan runs on to the terminator (`CharSearchStraddle`).
- So the bound is exact only when it ends on a code-point boundary (`CharSearchWithinBound`); a straddling code point is part of the search.

With one unit per code point the bound is exact (`CharSearchUnitBudget`).

The set search charges each non-matching set code point with the width of the *source* code point being looked up (`temp - str`), not with the set code point's own width. The model keeps this as written and characterises it:
- `SetContainsIndexed` gives the general case;
- `SetContainsUnit` gives the exact bound when widths are one unit;
- `SetBudgetChargesSourceWidth` gives a UTF-16 case where the difference is visible.

The variable `start_of_ch2` holds a pointer to the start of the next set code point (drsl/find.hpp:177, 189). It is written but never read.

The substring search hands the caller's `str1Length` unchanged to every retry of the character search (drsl/find.hpp:88). The bound is therefore measured from each retry's cursor, not from the start of the haystack, and a match can begin past the end of the haystack view. `SubstringSearchPastView` shows this: in the view [0, 3) of "axxab", "ab" is found at 3.

## Model

| member | source | states |
|---|---|---|
| Buffers.SizeSub | drsl/find.hpp:26 | unsigned `strLength -= temp - str`: exact when no underflow, wraps to 2^64 - (d - a) otherwise, and adding `d` back restores the old value modulo 2^64 |
| Buffers.Length | drsl/find.hpp:78-81 | `length(str2)`: the index of the first 0 unit; every unit before it is non-zero |
| Buffers.LengthOf | drsl/find.hpp:78-81 | any index holding a 0 with no 0 before it is the length |
| Buffers.View.constructor | drsl/nextline.hpp:25 | `reference_string<T>`: a view with the given `start` and `end` cursors into a caller-owned buffer; `nextline` writes these fields in place |
| Buffers.UnitsEqual | drsl/find.hpp:90 | `compare(str1, str2, n) == 0`: the `n` units agree one by one, stopping early, as an ordinal comparison of null-terminated strings does, at a terminator both strings share |
| Buffers.UnitsEqualSharedTerminator | drsl/find.hpp:90 | strings equal up to and including a common terminator compare equal for every longer `n` (the converse is `UnitsEqualPastNeedle`) |
| Buffers.UnitsEqualPastNeedle | drsl/find.hpp:90 | with a `str2Length` past the needle's terminator, `compare` answers 0 iff the haystack holds the rest of the needle and ends right there; an occurrence followed by more haystack units fails |
| Buffers.UnitsEqualIsSliceEquality | drsl/find.hpp:90 | `compare(str1, str2, n) == 0` within the needle holds iff the `n` haystack units equal the `n` needle units |
| Decoding.StepValid | drsl/find.hpp:19 | what one `nextchar` step promises: code point 0 exactly at the terminator; elsewhere a non-zero code point that takes at least one unit and ends no later than the terminator |
| Decoding.Decodes | drsl/find.hpp:19 | the decoder honours `StepValid` at every cursor of the buffer up to the terminator |
| Decoding.Boundaries | drsl/find.hpp:19 | the cursors `nextchar` visits from `p`: they start at `p`, lie before the terminator, and are empty exactly at the terminator |
| Decoding.BoundariesTransitive | drsl/find.hpp:19 | a later boundary of `p` is a boundary of every earlier boundary of `p` |
| Decoding.BoundariesSubset | drsl/find.hpp:19 | a boundary of a boundary of `p` is a boundary of `p` |
| Decoding.BoundariesAfter | drsl/find.hpp:88 | after `nextchar` steps over the code point at boundary `c`, the cursors left are exactly the boundaries beyond `c` |
| Decoding.UnitBoundaries | drsl/find.hpp:19 | with one unit per code point, every index before the terminator is a boundary |
| Find.BudgetShift | drsl/find.hpp:19-28 | subtracting a width from the budget moves the stopping offset by that width, modulo 2^64 |
| Find.ReachedStep | drsl/find.hpp:19-28 | one loop iteration: the scan reaches its start iff the budget is non-zero, and reaches a later boundary iff the budget is non-zero and the scan from the next code point, with the reduced budget, reaches it |
| Find.CharSearch | drsl/find.hpp:13-31 | a found position lies between the start and the terminator and its code point is the character (that it is a boundary is `CharSearchFound`) |
| Find.CharSearchFinds | drsl/find.hpp:13-31 | the search returns `q` iff the scan reaches `q`, `q` holds the character, and every earlier boundary holds a different code point |
| Find.CharSearchMisses | drsl/find.hpp:13-31 | the search returns NULL iff no boundary the scan reaches holds the character |
| Find.CharSearchNul | drsl/find.hpp:19 | searching for `'\0'` always returns NULL, because the loop exits on the terminator before comparing |
| Find.UnboundedReaches | drsl/find.hpp:14 | with the default bound, the scan reaches every boundary of a buffer with at most 2^64 - 1 units from the cursor to the terminator |
| Find.CharSearchUnbounded | drsl/find.hpp:13-31 | with the default bound: the first boundary holding the character, or NULL iff none does |
| Find.UnitReached | drsl/find.hpp:19-28 | with one unit per code point, the scan reaches exactly the offsets below the budget |
| Find.CharSearchUnitBudget | drsl/find.hpp:13-31 | with one unit per code point, the search finds `q` iff `q - p < strLength`, `buf[q]` is the character, and no earlier unit is |
| Find.CharSearchFound | drsl/find.hpp:13-31 | a found position is a boundary of the scan and no earlier boundary holds the character |
| Find.CharSearchStopsAt | drsl/find.hpp:19-27 | the search finds nothing at or beyond a boundary where the budget runs out |
| Find.CharSearchWithinBound | drsl/find.hpp:53-57 | when the bound ends on a boundary or the terminator, as a view's end does, a found position lies before it |
| Find.FindFirst | drsl/find.hpp:13-31 | the loop returns what `CharSearch` specifies |
| Find.FindFirstInView | drsl/find.hpp:53-57 | the view search is the character search from `start` bounded by `end - start`; a result lies inside the view when the view ends on a boundary |
| Find.FindFirstOfChar | drsl/find.hpp:149-153 | `findfirstof` for one character is the character search |
| Find.CandidateSearch | drsl/find.hpp:86-94 | a returned candidate holds the needle's first code point and passes `compare` |
| Find.SubstringSearch | drsl/find.hpp:68-97 | an empty needle (bound 0 or first unit 0) returns `str1`; otherwise a result holds the needle's first code point |
| Find.CandidateSearchFirst | drsl/find.hpp:86-94 | a result is a boundary, and every earlier boundary holding the first code point failed `compare`: candidates are tried in increasing order |
| Find.CandidateSearchGivesUp | drsl/find.hpp:86-96 | NULL comes only from a cursor where the character search, run with the original `str1Length`, fails, after every earlier candidate failed `compare` |
| Find.CandidateSearchUnbounded | drsl/find.hpp:86-96 | with the default haystack bound, NULL iff no boundary holding the first code point passes `compare` |
| Find.SubstringSearchMatches | drsl/find.hpp:78-94 | with the default needle length, a result is followed by an exact copy of the whole needle |
| Find.FindSubstring | drsl/find.hpp:68-97 | the loop returns what `SubstringSearch` specifies |
| Find.FindSubstringInView | drsl/find.hpp:129-133 | the view search is the substring search with both views' lengths as bounds; unlike the character search in a view, a result can lie past the haystack view's end (`SubstringSearchPastView`) |
| Find.CharSearchHello | drsl/find.hpp:13-31 | "hello": 'l' is found at 2 with the default bound or bound 3, not with bound 2; 'z' is not found |
| Find.CharSearchStraddle | drsl/find.hpp:19-28 | UTF-16 with bound 1: a surrogate pair straddling the bound is still compared, and on a mismatch the wrapped budget lets the scan find 'a' at 2 |
| Find.SubstringSearchRetries | drsl/find.hpp:86-94 | "ab" is found in "aab" at 1: the candidate at 0 fails `compare`, and the search resumes one code point later |
| Find.SubstringSearchPastView | drsl/find.hpp:88 | with the haystack view [0, 3) of "axxab" and needle "ab", the candidate at 0 fails and the retry from 1, still with 3 units of budget, finds "ab" at 3, past the view's end |
| Find.SubstringSearchOverlongNeedle | drsl/find.hpp:80-94 | with `str2Length` 3 for the needle "ab", `compare` also checks the haystack unit under the needle's terminator: "ab" is not found in "abc", where it is followed by 'c', and is found at 0 in "ab" |
| Find.SubstringSearchAbsent | drsl/find.hpp:68-97 | "xyz" is not found in "abc" |
| Find.SubstringSearchEmptyNeedle | drsl/find.hpp:74-77 | an empty needle matches at the haystack cursor |
| FindSet.SetContains | drsl/find.hpp:179-190 | the inner loop answers yes only for a non-zero code point, at a set cursor before the terminator, with a non-zero set budget |
| FindSet.SetBudgetStep | drsl/find.hpp:188 | one more charge of the source width moves the budget of every later set code point by one step |
| FindSet.SetContainsIndexed | drsl/find.hpp:179-190 | the inner loop finds the code point iff some set code point `k` equals it and the set budget, charged `j` times the source width before code point `j`, is non-zero for every `j <= k` |
| FindSet.SetContainsUnit | drsl/find.hpp:179-190 | with one unit per code point in both strings, found iff the code point occurs in the first `setLength` units of the set |
| FindSet.SetSearch | drsl/find.hpp:165-197 | a found position lies between the start and the terminator and the inner loop finds its code point in the set (that it is a boundary is `SetSearchFinds`) |
| FindSet.SetSearchFinds | drsl/find.hpp:165-197 | returns `q` iff the scan reaches `q`, its code point is found in the set, and no earlier source boundary's is |
| FindSet.SetSearchMisses | drsl/find.hpp:165-197 | NULL iff no source boundary the scan reaches has its code point found in the set |
| FindSet.SetSearchUnbounded | drsl/find.hpp:165-197 | with the default source bound: the first source boundary found in the set, or NULL iff none is |
| FindSet.FindFirstOf | drsl/find.hpp:165-197 | the nested loops return what `SetSearch` specifies |
| FindSet.SetSearchHello | drsl/find.hpp:165-197 | "hello" with the set "ol" gives 2 |
| FindSet.SetBudgetChargesSourceWidth | drsl/find.hpp:188 | a two-unit source code point, against a four-unit set that contains it third with `setLength` 4, is not found, because two charges of two units exhaust the set budget; with the default bound it is found at 0 |
| Lines.LineEnd | drsl/nextline.hpp:38-64 | the line ends at or after its start, no later than the terminator, and where it ends before the terminator a delimiter starts |
| Lines.PastDelimiter | drsl/nextline.hpp:45-60 | the cursor after a delimiter lies strictly after it; at the terminator it stays put |
| Lines.SplitLine | drsl/nextline.hpp:24-71 | returns false iff the cursor is on the terminator; otherwise `start` is the old cursor, `start <= end <= new cursor <= terminator`, and the cursor strictly advances |
| Lines.LineEndFirst | drsl/nextline.hpp:38-62 | the end is the first boundary starting "\n" or "\r\n", or the terminator; no boundary inside the line starts a delimiter |
| Lines.NextIsCursor | drsl/nextline.hpp:46-47 | stepping over a code point lands on a boundary or the terminator |
| Lines.SplitLineCases | drsl/nextline.hpp:38-69 | "\n": the end is the line feed, and the cursor moves just past it; "\r\n": the end is the carriage return, and the cursor moves past the line feed; no delimiter: the end and the new cursor are the terminator; end and new cursor are boundaries or the terminator |
| Lines.Lines | drsl/nextline.hpp:24-71 | repeated calls yield no lines exactly when started on the terminator |
| Lines.LinesContiguous | drsl/nextline.hpp:24-71 | repeated calls give contiguous lines: each starts where the last call left the cursor, `start <= end <= next`, and the last stops at the terminator |
| Lines.LinesPartition | drsl/nextline.hpp:24-71 | repeated calls partition the buffer: the lines plus their delimiters, in order, are exactly the units from the first cursor to the terminator |
| Lines.NextLine | drsl/nextline.hpp:24-71 | returns false iff `*str == 0`, in which case neither the view nor the cursor changes; otherwise the view and the new cursor are what `SplitLine` specifies |
| Lines.SplitCrLf | drsl/nextline.hpp:43-53 | "a\r\nb" gives the lines (0,1) and (3,4); the cursor goes to 3, then 4 |
| Lines.SplitBareCr | drsl/nextline.hpp:43-63 | "a\rb" is one line (0,3): a bare carriage return is content |
| Lines.SplitTrailingLf | drsl/nextline.hpp:55-60 | "a\nb\n" gives two lines and no trailing empty line |
| Lines.SplitEmptyLines | drsl/nextline.hpp:29-60 | "\n" gives one empty line; an empty buffer gives none |

## Left out

- The libc fast paths (`strchr`, `wcschr`, `strstr`, `wcsstr`, `strpbrk`, `wcspbrk`; drsl/find.hpp:34-51, 100-108, 118-126, 200-209, 218-227) are left out; only the generic templates are modelled. The fast paths are not equivalent to them: searching for 0 with `strchr`/`wcschr` returns the terminator where the generic loop returns NULL (`CharSearchNul`), `wcschr` truncates the target to `wchar_t`, and none of them takes a bound. The `wchar_t` overloads and the `char` `strstr` overloads are not conditional, so an unbounded call on those unit types runs libc, not the modelled loop.
- The decoder internals (`nextchar`, `getchar`) are not modelled. They are a parameter constrained by the decoder contract. `UnitDecode` and `Utf16Decode` are two instances.
- `compare` and `length` are defined here by their contracts (`UnitsEqual`, `Length`) rather than from their own source, which is not part of this model.
- The `reference_string` type definition is not part of this model. Only its `start`/`end` fields and `length` (as `end - start`) are used.
- The `assert(str != NULL)` checks are not modelled: a cursor is always a valid index. The bounds a view supplies are required to fit in `size_t`.
- The non-const wrappers (drsl/find.hpp:111-115 and 211-215) only cast the pointer. They behave exactly as `FindSubstring` and `FindFirstOf`.
- The dead variable `start_of_ch2` (drsl/find.hpp:177, 189) is never read and has no effect.
- Pointer identity, aliasing and machine integer widths other than `size_t` are not modelled. Code points are unbounded integers.
- Find.CharSearchUnitBudget: assumes a buffer of at most 2^64 units, which any addressable buffer is.
- Find.CharSearchUnbounded: assumes at most 2^64 - 1 units from the cursor to the terminator.
- Find.CandidateSearchUnbounded: assumes at most 2^64 - 1 units from the cursor to the terminator.
- FindSet.SetSearchUnbounded: assumes at most 2^64 - 1 units from the cursor to the terminator.
