# Limb arithmetic, strings and the GC ring of ENCODERS, verified

This project models three parts of the ENCODERS code base in Dafny and proves what callers rely on.

**Multi-limb arithmetic** (`ccb/py4a/gmp.h`). A number is an array of limbs. A `Layout` gives the limb
width and the number of nail bits, and every statement holds for every layout; the header as configured
has 32-bit limbs without nails. The base is 2^(limb bits - nail bits), words wrap at 2^(limb bits), the
numb mask is the bitwise mask of the header. Destinations are real arrays that may be the same object as
a source. The plain schoolbook form (`Schoolbook`) is proved exact and unique; the early-exit loops with
their copied tails (`Mpn`, `MpnOne`) are proved to compute that form, in place or not. `MpnNeg` has
negation and comparison, `Mpz` the sign-magnitude layer.

**`haggle::String`** (`ccb/c++/String.cpp`). The class `HaggleString.String` has the source's three fields
and the NUL cell shared by all empty strings. `StringRep` describes each operation as a function on the
whole representation, stale bytes included; each method is proved to leave exactly that representation
and to write only its own fields and its own buffer. `StringRuns` and `StringSession` state what holds
over runs of calls, `StringSearch` has the searches, substrings and the split loop, `StringCompare` the
order. `CString` models the C library functions that are called. `size_t` has 32 bits, as in
`ccb/py4a/pyconfig.h` line 1010.

**The GC ring** (`ccb/py4a/Include/objimpl.h`). `GcRing` has the doubly linked ring with its in-place
pointer writes; `GcOrder` says which objects are in it, in which order, after any history.

Places where the code does less than its name, comment or macro suggests, each with the exact condition:

- `mpn_add_1` and `mpn_sub_1` with nails lose a carry for an operand with nail bits set
  (`OneExactIff`, `NailsInOperandLoseCarry`, `NailsInOperandLoseBorrow`).
- `mpn_neg` applies no numb mask: with nails it negates in the word base, and so negates the number
  itself only if there are no nails or the number is zero (`NegExactIff`, `NailsSpoilNegation`).
- `mpz_fits_*_p` and `mpz_get_ui` are right for every number only up to a type width, and only if nails
  take at most half of a limb, respectively (`FitsCorrectIff`, `GetUiCorrectIff`); `FitsExact` and
  `GetUiExact` say what they compute for every width and every layout.
- The bounded appends write no terminator; after `clear`, `erase` or assignment old bytes can follow the
  new end (`AppendSliceIff`, `StaleTail`), and `c_str` then shows more than the string (`CStringIff`).
- `append(const String&, pos, n)` turns away every nonempty slice that reaches the end of its argument
  (`SubAppendIff`, `WholeArgumentRejected`).
- `find` finds no match that starts exactly at length - n when it is asked to start there (`Find`,
  `FindItself`). So the split loop takes the last separator of a text for a token exactly when the text is
  that separator or ends in two of them (`Split`, `LoopSplitIff`, `DoubleSpaceAtEnd`).
- `find_last_of` from a position behind the length finds nothing, and from the length itself it can return
  the length, when a stale byte lies there (`FindLastOf`, `FindLastBehind`, `FindLastStale`).
- The const `at` gives NUL for every position inside the string, against its comment (`At`).
- `SplitFilename` gives the whole string twice when there is no separator (`SplitFilename`).
- `_compare` tests the first operand for emptiness twice and the second never; whole-string comparison is
  right all the same (`RawCompareIsLex`).

## Model

| member | source | states |
|---|---|---|
| Limbs.MaskIsMod | ccb/py4a/gmp.h:46-49 | the numb mask has exactly the number bits set, and and-ing with it is reduction modulo the base, for every layout |
| Schoolbook.WholeExact | ccb/py4a/gmp.h:1907-1946 | schoolbook addition and subtraction satisfy the exact integer equation, for all lengths with ysize <= xsize |
| Schoolbook.ExactIsWhole | ccb/py4a/gmp.h:1907-1946 | any limbs and carry that satisfy the exact equation are the schoolbook result |
| Schoolbook.Undo | ccb/py4a/gmp.h:2125-2170 | subtraction undoes addition and conversely, limb for limb, with the same carry |
| Schoolbook.CarryMeaning | ccb/py4a/gmp.h:2125-2170 | the carry is 1 iff the sum needs another limb, the borrow iff x < y |
| Schoolbook.NoCarryTail | ccb/py4a/gmp.h:1934-1936 | once the carry has died behind the limbs of y, the rest of the result is the rest of x |
| Mpn.MaskedStep | ccb/py4a/gmp.h:1941-1946 | adding or subtracting one in a word and masking is one carry step in the number base |
| Mpn.ChainLimb | ccb/py4a/gmp.h:1941-1946 | the stored limb and the loop test of both macros are a schoolbook step with carry 1 |
| Mpn.CopyRest | ccb/py4a/gmp.h:2098-2110 | limbs from start to size become the source's, all others stay, for the same or separate arrays |
| Mpn.FinishTail | ccb/py4a/gmp.h:1934-1935 | the destination ends as its first part and the source's rest, copied or already in place |
| Mpn.AorsN | ccb/py4a/gmp.h:1472-1473 | mpn_add_n and mpn_sub_n give the schoolbook limbs and carry, in place or not |
| Mpn.CommonLimbs | ccb/py4a/gmp.h:1917-1920 | the limbs both operands have, skipped when ysize is 0 |
| Mpn.CarryChain | ccb/py4a/gmp.h:1920-1932 | the do/while chain agrees with the schoolbook form at every exit: carry out of the top limb, or dead before limb i |
| Mpn.Aors | ccb/py4a/gmp.h:1907-1939 | the macro body computes exactly the schoolbook limbs and carry of the old operands, whatever the aliasing, and nothing beyond xsize changes |
| Mpn.Add | ccb/py4a/gmp.h:2125-2131 | mpn_add is exact: value(w) + c*B^xsize = value(x) + value(y), limbs below B, c at most 1 |
| Mpn.Sub | ccb/py4a/gmp.h:2164-2170 | mpn_sub is exact: value(w) - c*B^xsize = value(x) - value(y) |
| Mpn.AddThenSub | ccb/py4a/gmp.h:2125-2170 | in memory, subtracting y from the sum restores x and borrows exactly when the addition carried |
| MpnOne.LimbOpOne | ccb/py4a/gmp.h:1990-1994 | with v = 1 both macro bodies compute a schoolbook step |
| MpnOne.NailStep | ccb/py4a/gmp.h:2021-2024 | with nails, masking and shifting compute a schoolbook step for every two number limbs |
| MpnOne.CarryTestsAgree | ccb/py4a/gmp.h:2024-2052 | for every limb v: the nail test fires as the comparison r < y or x < y would iff x + v < 2^(limb bits) (add), v <= x + 2^(limb bits) - B (sub); so for all number limbs |
| MpnOne.LimbOpValue | ccb/py4a/gmp.h:1982-2024 | for every limb v: the lowest limb becomes x op v modulo B; the carry is set iff x op v is no number limb and, with nails, the wrapped word is none either |
| MpnOne.LimbOpExactIff | ccb/py4a/gmp.h:1982-2024 | the lowest limb position is exact iff it needs at most one carry |
| MpnOne.CarryGone | ccb/py4a/gmp.h:1994-2007 | a dead carry leaves the rest of the source |
| MpnOne.CarryLoop | ccb/py4a/gmp.h:1986-2001 | the carry loop agrees with the plain ripple at both exits |
| MpnOne.AorsOne | ccb/py4a/gmp.h:1973-2049 | both macro bodies compute the plain ripple result of the old source, in place or not |
| MpnOne.OneValue | ccb/py4a/gmp.h:1973-2057 | for every limb v: the value changes by what the lowest limb and its carry of weight B change |
| MpnOne.OneExactIff | ccb/py4a/gmp.h:1973-2057 | for every limb v: exact iff src[0] + v < 2B (add), v <= src[0] + B (sub) |
| MpnOne.OneIsWhole | ccb/py4a/gmp.h:2054-2057 | for a number limb v the result is that of mpn_add or mpn_sub with the operand [v] |
| MpnOne.LimbOpUndo | ccb/py4a/gmp.h:1982-2024 | at the lowest limb, for every limb v: the inverse operation restores the limb, and its carry test fires exactly when the first did |
| MpnOne.OneUndo | ccb/py4a/gmp.h:2138-2183 | for every limb v, even where the equation fails: mpn_add_1 and mpn_sub_1 undo each other with the same carry |
| MpnOne.NailsInOperandLoseCarry | ccb/py4a/gmp.h:2021-2024 | a concrete operand with nail bits set for which the equation fails |
| MpnOne.NailsInOperandLoseBorrow | ccb/py4a/gmp.h:2021-2024 | a concrete operand with nail bits set for which the subtraction fails |
| MpnOne.Add1 | ccb/py4a/gmp.h:2138-2144 | mpn_add_1 meets value(dst) + c*B^n = value(src) + v iff the guard on the lowest limb holds |
| MpnOne.Sub1 | ccb/py4a/gmp.h:2177-2183 | mpn_sub_1 meets value(dst) - c*B^n = value(src) - v iff the guard on the lowest limb holds |
| MpnNeg.NegWord | ccb/py4a/gmp.h:2196-2198 | one negated word and the carry behind it |
| MpnNeg.NegLimbs | ccb/py4a/gmp.h:2190-2201 | the loop computes zero minus the vector in the word base |
| MpnNeg.Neg | ccb/py4a/gmp.h:2190-2201 | mpn_neg: value(rp) = cy*m^n - value(up) in the word base m, with cy = 1 iff some limb is not zero |
| MpnNeg.NegatedExact | ccb/py4a/gmp.h:2190-2201 | the same of the specification, and negating twice is the identity |
| MpnNeg.NegatedInBase | ccb/py4a/gmp.h:2196-2198 | read in the number base, the result is too large by the nail bits of every limb from the lowest nonzero one |
| MpnNeg.NegExactIff | ccb/py4a/gmp.h:2190-2201 | mpn_neg negates the number iff there are no nails or the number is zero |
| MpnNeg.NailsSpoilNegation | ccb/py4a/gmp.h:2196-2198 | with five nails the limb 1 of base 16 becomes 511, which is not 16 - 1 |
| MpnNeg.Cmp | ccb/py4a/gmp.h:2063-2083 | mpn_cmp is positive iff value(x) > value(y) and negative iff value(x) < value(y), for every size including 0 |
| MpnNeg.TopDifference | ccb/py4a/gmp.h:2074-2081 | the topmost differing limb decides |
| MpnNeg.CmpAgreesWithSub | ccb/py4a/gmp.h:2151-2170 | what mpn_cmp returns is negative iff mpn_sub borrows, positive iff it borrows with the operands exchanged, and zero iff the limbs are equal |
| Mpz.FitsExact | ccb/py4a/gmp.h:1710-1721 | for every normalized z and every type width: the test holds exactly of 0 <= z < 2^w, w being the least of the width, the limb bits and twice the number bits |
| Mpz.FitsTooWide | ccb/py4a/gmp.h:1710-1721 | beyond the limb bits or twice the number bits, a number of the type is turned away |
| Mpz.FitsCorrectIff | ccb/py4a/gmp.h:1710-1721 | the test is right for every normalized z iff the type is no wider than a limb and than twice the number bits |
| Mpz.FitsType | ccb/py4a/gmp.h:1727-1753 | mpz_fits_ulong_p, uint_p and ushort_p on a number in memory, with the same exact meaning for every width |
| Mpz.GetUiExact | ccb/py4a/gmp.h:1760-1781 | for every layout, mpz_get_ui is the magnitude modulo 2^w, where w is the limb bits or twice the number bits, whichever is less |
| Mpz.GetUiWideNails | ccb/py4a/gmp.h:1774-1779 | with nails over half a limb, a number for which it is not the magnitude modulo 2^(limb bits) |
| Mpz.GetUiCorrectIff | ccb/py4a/gmp.h:1760-1781 | it is the magnitude modulo 2^(limb bits) for every normalized z iff nails take at most half of a limb |
| Mpz.GetUnsigned | ccb/py4a/gmp.h:1760-1781 | mpz_get_ui on a number in memory, with the same modular meaning for every layout |
| Mpz.FitThenGetUi | ccb/py4a/gmp.h:1738-1781 | for every layout, a number that fits an unsigned long is returned unchanged |
| Mpz.LimbsRebuild | ccb/py4a/gmp.h:1788-1795 | limbs read one by one up to any count from mpz_size on rebuild the magnitude and are limbs below B, others are 0 |
| Mpz.Set | ccb/py4a/gmp.h:1020-1021 | mpz_set makes w the number u |
| Mpz.MpzAbs | ccb/py4a/gmp.h:1701-1707 | mpz_abs leaves the absolute value, and the limbs alone when in place |
| Mpz.MpzNeg | ccb/py4a/gmp.h:1799-1805 | mpz_neg leaves the negated number, and the limbs alone when in place |
| CString.Realloc | ccb/c++/String.cpp:37 | a larger block that keeps the old bytes |
| CString.Memset0 | ccb/c++/String.cpp:45 | exactly the given bytes become NUL |
| CString.Strlen | ccb/c++/String.cpp:57 | the number of bytes before the first NUL |
| CString.Strcpy | ccb/c++/String.cpp:71 | the string and its NUL are stored, nothing else changes |
| CString.CopyUntilNul | ccb/c++/String.cpp:402 | the copying part of strncpy, also downwards within one buffer |
| CString.Strncpy | ccb/c++/String.cpp:402 | exactly n bytes are stored, those of the string and then NULs |
| StringRep.Grow | ccb/c++/String.cpp:24-49 | growing keeps the string, never shrinks and gives at least the demanded room |
| StringRep.AppendStringHolds | ccb/c++/String.cpp:166-213 | append yields the concatenation, terminated unless nothing was appended to an unterminated string; a tight buffer stays tight |
| StringRep.AppendSliceIff | ccb/c++/String.cpp:176-200 | a bounded append yields the characters, and a terminated string iff the buffer grew or a NUL lay at the new end |
| StringRep.SubAppendIff | ccb/c++/String.cpp:176-187 | append(const String&, pos, n) changes nothing if pos + n reaches or passes the end of the argument; a slice inside the argument is appended iff n is 0 or it ends before that |
| StringRep.WholeArgumentRejected | ccb/c++/String.cpp:176-179 | "b" is not appended to "a" by append(b, 0, 1) |
| StringRep.PrefixAppendHolds | ccb/c++/String.cpp:189-200 | append(const char*, n) appends the first n characters if there are that many, and changes nothing if there are fewer |
| StringRep.StaleTail | ccb/c++/String.cpp:117-200 | "abc", clear, append("x", 1) is not terminated behind its one character |
| StringRep.AppendFillHolds | ccb/c++/String.cpp:215-225 | append(n, c) appends n characters, whichever they are, and a terminator |
| StringRep.AppendFillIff | ccb/c++/String.cpp:215-225 | the result of append(n, c) holds no NUL inside iff c is not NUL or n is 0; then it carries the concatenation, and a tight buffer stays tight |
| StringRep.AssignHolds | ccb/c++/String.cpp:411-428 | assignment leaves a valid string with the new characters, in an allocated buffer and with no less capacity |
| StringRep.EraseMiddle | ccb/c++/String.cpp:399-405 | the overlapping copy closes the gap and the terminator follows |
| StringRep.EraseHolds | ccb/c++/String.cpp:384-408 | erase leaves old[..pos] + old[pos+n..] if that many characters are there, old[..pos] if fewer or n is npos, and changes nothing from the length on; terminated iff it was or pos lies inside the string |
| StringRuns.SliceIff | ccb/c++/String.cpp:176-200 | both bounded appends append what their guards let pass (which slice that is, SubAppendIff and PrefixAppendHolds say), and when they leave a terminator |
| StringRuns.StepIff | ccb/c++/String.cpp:24-441 | one call of any kind on any string, terminated or not: the characters change as meant, capacity never shrinks, and the exact condition for a terminator afterwards |
| StringRuns.StepContents | ccb/c++/String.cpp:24-441 | the characters after each kind of call, spelled out in its arguments, rejected slices and clamped counts included |
| StringRuns.StepRest | ccb/c++/String.cpp:24-441 | the rest of the buffer after each call: it keeps its size and the bytes behind the new end, or grows to exactly the string and its terminator |
| StringRuns.RunRefines | ccb/c++/String.cpp:24-441 | every run, through unterminated states too, refines the run on plain sequences and never loses capacity |
| StringRuns.ValidThroughoutIff | ccb/c++/String.cpp:24-441 | a string is valid after every call of a run iff it starts valid and every call meets its condition |
| StringRuns.UnboundedRunsValid | ccb/c++/String.cpp:24-441 | every run without bounded appends ends valid |
| StringRuns.AppendRunsTight | ccb/c++/String.cpp:24-225 | every run of appends from a tight buffer, bounded ones included, ends tight and so valid |
| StringRuns.ConstructedRuns | ccb/c++/String.cpp:52-441 | from any constructor, the default one with its shared cell included, every run of either kind is valid throughout and refines the plain run |
| HaggleString.String.Alloc | ccb/c++/String.cpp:24-49 | leaves exactly the grown representation; the buffer is the old one or new |
| HaggleString.String.AssignC | ccb/c++/String.cpp:421-428 | operator=(const char*) leaves exactly the assigned representation |
| HaggleString.String.AssignString | ccb/c++/String.cpp:411-419 | operator=(const String&) leaves exactly the assigned representation |
| HaggleString.String.PutAssigned | ccb/c++/String.cpp:413-414 | allocation and copy of both assignments, before the length is set; a strlen of the buffer then gives the length |
| HaggleString.String.AssignCh | ccb/c++/String.cpp:430-441 | operator=(char), the NUL character giving the empty string |
| HaggleString.String.ReadAsC | ccb/c++/String.cpp:102-115 | c_str of a valid string, read up to its NUL, is the string of length() characters |
| HaggleString.String.CStringIff | ccb/c++/String.cpp:102-115 | c_str of any string begins with its characters and ends within the buffer, and shows exactly them iff the string is terminated |
| HaggleString.String.At | ccb/c++/String.cpp:136-142 | on any string, the const at gives NUL for every position inside it, and for every position of an empty one; else the buffer's byte; so what its comment promises iff the position is not inside the string and the byte there is NUL |
| HaggleString.String.FromC | ccb/c++/String.cpp:68-74 | the constructor from a C string: a tight buffer, the shared cell for a null pointer |
| HaggleString.String.Copy | ccb/c++/String.cpp:76-82 | the copy constructor: a tight buffer of its own |
| HaggleString.String.FromChar | ccb/c++/String.cpp:84-94 | the constructor from a character |
| HaggleString.String.Prefix | ccb/c++/String.cpp:52-66 | at most n characters, terminated by a zeroed byte |
| HaggleString.String.FillPrefix | ccb/c++/String.cpp:62-65 | allocation and copy of that constructor |
| HaggleString.String.AppendStr | ccb/c++/String.cpp:166-174 | append(const String&) leaves exactly the appended representation |
| HaggleString.String.AppendC | ccb/c++/String.cpp:202-213 | append(const char*) likewise, nothing for a null pointer or empty string |
| HaggleString.String.AppendText | ccb/c++/String.cpp:168-171 | the common end of both: allocation, copy with terminator, new length |
| HaggleString.String.PutText | ccb/c++/String.cpp:208-209 | copy and new length of the unbounded appends |
| HaggleString.String.AppendSub | ccb/c++/String.cpp:176-187 | the bounded append of a String, terminated or not, guard as written; nothing changes when it rejects |
| HaggleString.String.AppendN | ccb/c++/String.cpp:189-200 | the bounded append of a C string, guard as written; nothing changes when it rejects |
| HaggleString.String.AppendBytes | ccb/c++/String.cpp:181-184 | the common end of both: allocation, copy without terminator, new length |
| HaggleString.String.PutBytes | ccb/c++/String.cpp:182-183 | copy and new length of the bounded appends |
| HaggleString.String.AppendChars | ccb/c++/String.cpp:215-225 | append(size_t, char) leaves exactly the filled representation |
| HaggleString.String.PutChars | ccb/c++/String.cpp:218-222 | the fill loop and the terminator |
| HaggleString.String.ClearAll | ccb/c++/String.cpp:117-123 | clear writes one NUL at most, and none into the shared cell |
| HaggleString.String.EraseAt | ccb/c++/String.cpp:384-408 | erase leaves exactly the erased representation, on any string, terminated or not |
| HaggleString.String.MoveDown | ccb/c++/String.cpp:399-402 | the overlapping strncpy moves the tail over the gap |
| StringCompare.Strncmp | ccb/c++/String.cpp:242 | the sign of strncmp, up to n bytes or the first NUL; an operand needs n readable bytes or a NUL |
| StringCompare.LexSignMeaning | ccb/c++/String.cpp:227-253 | the sign is the order by first difference of unsigned bytes, 0 iff equal, antisymmetric |
| StringCompare.LexTransitive | ccb/c++/String.cpp:227-253 | the order is transitive, strictly if a step is strict |
| StringCompare.RawCompareIsLex | ccb/c++/String.cpp:227-243 | _compare over whole strings is the lexicographic sign despite its special cases |
| StringCompare.CompareIsLex | ccb/c++/String.cpp:245-248 | compare(const String&) is the lexicographic order of the characters |
| StringCompare.CompareCIsLex | ccb/c++/String.cpp:250-253 | compare(const char*) likewise |
| StringCompare.OperatorsAgree | ccb/c++/String.cpp:510-598 | the three forms of every relational operator agree, strcmp or compare, operands exchanged or not |
| StringCompare.OperatorsOrder | ccb/c++/String.cpp:510-598 | == and != are equality of the characters and its negation, < and > the order by first difference both ways, <= and >= their negations; <= is a total order |
| StringSearch.StrncmpAt | ccb/c++/String.cpp:286 | the test in find holds iff the pattern occurs at the position, whatever lies behind the text |
| StringSearch.Find | ccb/c++/String.cpp:280-292 | on any string, terminated or not: the least match from pos on, npos iff none, except exactly when the only start left is length - n and it matches |
| StringSearch.FindItself | ccb/c++/String.cpp:282-283 | find misses "a" in "a" |
| StringSearch.FindChar | ccb/c++/String.cpp:299-310 | on any string, the least index of the character from pos on |
| StringSearch.OneOf | ccb/c++/String.cpp:323-326 | membership in the first n characters of the set |
| StringSearch.FindFirstOf | ccb/c++/String.cpp:317-330 | on any string, the least index from pos on of a character of the set |
| StringSearch.FindLastOf | ccb/c++/String.cpp:350-369 | on any string, terminates through the wrap to npos and gives the greatest index up to pos, from npos too; wrong iff pos is behind the length and the set occurs, or pos is the length and a stale byte of the set lies there |
| StringSearch.LastLoop | ccb/c++/String.cpp:361-368 | its loop, by whether the start hits a stale byte at the length |
| StringSearch.FindLastBehind | ccb/c++/String.cpp:358-359 | find_last_of from position 2 misses "a" in "a" |
| StringSearch.FindLastStale | ccb/c++/String.cpp:358-368 | in "abc" cleared and given "x" by a bounded append, find_last_of("b", 1) gives 1, the length, where "b" does not occur |
| StringSearch.CopyOut | ccb/c++/String.cpp:160-161 | of any string, a new tight string of the n characters at pos |
| StringSearch.Substr | ccb/c++/String.cpp:152-164 | of any string, a prefix of the characters from pos on, n of them, or all that are left when n is more; empty when pos is out of range |
| StringSearch.RebuildAt | ccb/c++/String.cpp:152-164 | substr(0,k) and substr(k+1) are the parts before and behind k, and with s[k] between them they are s |
| StringSearch.SplitFilename | ccb/c++/String.cpp:607-614 | the string is cut at the first separator behind its first character: the parts before and behind it; without separator both parts are the string |
| StringSearch.NextToken | ccb/c++/String.cpp:654-658 | one round of the split loop |
| StringSearch.Split | ccb/c++/String.cpp:653-659 | terminates; joining the tokens gives the string; no token holds a separator, except that the last is a lone separator iff the string is one separator or ends in two |
| StringSearch.LoopSplitIff | ccb/c++/String.cpp:653-659 | the tokens are the true split iff the string does not end that way; otherwise the split has two empty tokens in place of the last |
| StringSearch.SplitUnique | ccb/c++/String.cpp:653-659 | tokens without separators that join to a string are determined by it |
| StringSearch.DoubleSpaceAtEnd | ccb/c++/String.cpp:653-659 | of "a" and two spaces the loop makes "a" and " ", where the split is "a" and two empty tokens |
| StringSession.Call | ccb/c++/String.cpp:117-441 | each call on an object, with arguments of type String and const char*, is the step of its representation |
| StringSession.Execute | ccb/c++/String.cpp:117-441 | over every run, through unterminated states too, an object in memory has the representation of the run, its characters and no less capacity |
| StringSession.Plus | ccb/c++/String.cpp:468-475 | operator+ is concatenation into a tight new string |
| GcOrder.ReplayDistinct | ccb/py4a/Include/objimpl.h:271-293 | no object is ever in the ring twice |
| GcOrder.ReplayIsSurvivors | ccb/py4a/Include/objimpl.h:271-293 | the ring holds the objects of exactly those TRACK events that no later UNTRACK took back, in event order |
| GcOrder.TrackUntrackCancel | ccb/py4a/Include/objimpl.h:271-293 | UNTRACK right after TRACK restores the sequence |
| GcRing.Generation.GcTrack | ccb/py4a/Include/objimpl.h:271-280 | appends an untracked object at the end of the ring; reports a tracked one and changes nothing |
| GcRing.Unlink | ccb/py4a/Include/objimpl.h:290-291 | taking a node out of any linked circle leaves the rest a linked circle |
| GcRing.Generation.GcUntrack | ccb/py4a/Include/objimpl.h:286-293 | removes a tracked object, keeps order and links of the others, clears gc_next only |
| GcRing.Generation.Retire | ccb/py4a/Include/objimpl.h:289-292 | marking the object completes the removal |
| GcRing.Generation.TrackAndUntrack | ccb/py4a/Include/objimpl.h:271-293 | UNTRACK right after TRACK restores ring, links and marks |
| GcRing.Generation.RingLinks | ccb/py4a/Include/objimpl.h:251-261 | gc_next and gc_prev of the sentinel and of every tracked object, by position |
| GcRing.Generation.Walk | ccb/py4a/Include/objimpl.h:251-261 | following gc_next from the sentinel visits exactly the tracked objects in order and returns |
| GcRing.Generation.WalkBack | ccb/py4a/Include/objimpl.h:251-261 | following gc_prev visits them backwards |
| GcRing.Generation.Step | ccb/py4a/Include/objimpl.h:271-293 | one event on the ring in memory |
| GcRing.Generation.Run | ccb/py4a/Include/objimpl.h:271-293 | over every legal history the ring in memory holds the surviving objects in tracking order |

## Left out

- AorsN: mpn_add_n and mpn_sub_n are only declared in the header; a schoolbook loop stands for the library's code.
- Add: operand limbs with nail bits set are excluded, as in Sub; without nails there are none.
- Set: mpz_set is only declared in the header; a copying loop stands for it.
- Alloc: realloc always succeeds and always moves the block; allocation failure is not modelled.
- Strncpy: ISO C99 leaves overlapping copies undefined; erase's copy is read as going from low to high addresses.
- EraseAt: a count other than npos with pos + n beyond the largest size_t is excluded: the sum wraps and the copy reads and writes through pointers outside the buffer, which C++ leaves undefined; nor is a tail above 2^31 - 1 characters, as for MoveDown.
- MoveDown: the copy length is a 32-bit `long` in the source and a nat here; a tail above 2^31 - 1 characters would make it negative and skip the copy, which is not modelled, in EraseAt neither.
- AppendStr: an unterminated argument, of which strcpy copies more than length() says, size_t sums that wrap, and a string appended or assigned to itself, are excluded, in all appends and assignments.
- Strncmp: only the sign of the result is modelled, as the C standard fixes no more.
- GetUnsigned: for an unsigned long as wide as a limb; limbs of type long long are not modelled.
- MpzNeg: the size field is an unbounded integer; its int range is not modelled, as no limb count reaches it.
- Walk: the source has no such loop here; it states what a traversal by gc_next sees, likewise WalkBack by gc_prev.
- At: a position behind the buffer is excluded, where the source reads outside it; the non-const form, which returns a reference to write through, is not modelled.
- Bounded `compare` with positions and counts: it compares up to the larger of the two counts.
- `find_first_of(char)` and `find_last_of(char)`: they take strlen of the address of a single character.
- The overloads that only pass strlen or a String's fields on, `operator[]`, `operator+=` and the other forms of `operator+`: one-line calls of what is modelled.
- `stringprintf` and `vasprintf`: formatting of the C library.
- The other mpn, mpq and mpf functions of the header: declarations without bodies, or one-line calls of these.
- The rest of objimpl.h and of the CPython headers: declarations and flag macros; the trashcan and traversal code is not part of this model.
- The Haggle kernel, the Charm bridge and the scripts: threads, I/O, databases and library calls.
