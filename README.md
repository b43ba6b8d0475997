# SL dynamic strings in Dafny

This project models the core of SL, a small C string library (`src/sl.c`,
`src/sl.h`). An SL string is a C string with a hidden descriptor in front
of it. The descriptor holds the reservation (the bytes of storage,
terminator included) and the length (the bytes before the terminator).
The library keeps two invariants: `len + 1 <= res`, and a zero byte at
`content[len]`. Calls that may need more room take a handle (`slp`) and
may move the string to a new allocation.

The model has these parts:

- `Bytes` (bytes.dfy): bytes, C-string reading (`StrLen`, `CStr`), the
  zero padding of `strncpy` (`Padded`), byte swapping and ASCII case.
- `Index` (index.dfy): `sl_norm_idx` and `slinv`.
- `Mem` (mem.dfy): `memcpy`/`strncpy`, `memset` and `memmove` as array
  methods with exact frame contracts.
- `Search` (search.dfy): `slidx` as written and the first-occurrence
  search it means, plus `slfcr`, `slfcl`, `slend` and `sldff` as
  specification functions.
- `SlString` (sl.dfy): the managed string, class `Sl` with fields
  `buf: array<byte>` (its length is the reservation) and `len`, with
  `Valid()` being `len < buf.Length && buf[len] == 0`. Every
  constructor, accessor and editing call of the library is a member.
  A reallocation is a fresh array of exactly the requested size, with
  the old bytes copied in front.
- `Pieces` (pieces.dfy): the specification of a string cut at a
  delimiter. It defines the piece start offsets, the pieces, the buffer
  with every delimiter's first byte nulled, the join with a glue, and
  the replace-all of `slmap`.
- `Split` (split.dfy): `sldiv`, `slseg` (count and split), `slglu`, the
  `sltok` cursor (`Begin | At(i) | Finished`) and `slext`.
- `Mapping` (map.dfy): `slmap`, in its grow branch (count, grow, shift
  right, rewrite left to right) and its shrink branch.
- `Rewrite` (rewrite.dfy): `slswp`, `slcap`, `sltou`, `sltol`, `sldir`
  and `slbas`.
- `Decimal` (decimal.dfy): the integer encoders `sl_u64_str_len`,
  `sl_u64_to_str` (digits written lowest first, then reversed in place),
  `sl_i64_str_len` and `sl_i64_to_str`.
- `Format` (format.dfy): the formatter `slvpq`. It has a measure pass,
  a growth step and a write pass over `%s %S %i %I %u %U %c %%`. The
  variadic arguments are a `seq<Arg>`.

Each loop of the library is a `while` loop in a method. That method is
proved against a specification function, and lemmas state the
properties of that function: round trips, bounds and undoing.

## Model

| member | source | states |
|---|---|---|
| Bytes.StrLen | src/sl.c:1066-1074 | the length a C-string scan reads: bounded by the buffer, no zero before it, a zero at it when inside |
| Bytes.CStr | src/sl.c:1066-1074 | the bytes a C-string scan copies: zero-free, a prefix of the buffer, ended by a zero when shorter |
| Bytes.CStrOfText | src/sl.c:195-202 | a zero-free text followed by a terminator reads back as itself |
| Bytes.Padded | src/sl.c:1137-1143 | `strncpy` of n bytes: source bytes up to its first zero, zeros after it, length n |
| Bytes.PaddedOfText | src/sl.c:1137-1143 | on a zero-free source `strncpy` copies it exactly |
| Bytes.Swap | src/sl.c:848-860 | every byte equal to f becomes t, all others and the length are kept |
| Bytes.SwapRepairs | src/sl.c:848-860 | on a zero-free string, swapping c to 0 and back restores it |
| Bytes.CountConcat | src/sl.c:1231-1257 | occurrence counts add over concatenation |
| Bytes.ToUpper | src/sl.c:964-970 | ASCII rule: a lower-case letter loses 0x20, every other byte is kept |
| Bytes.ToLower | src/sl.c:973-979 | ASCII rule: an upper-case letter gains 0x20, every other byte is kept |
| Bytes.CaseKeepsText | src/sl.c:964-979 | case changes never create a zero byte, so the length is kept |
| Bytes.CaseRoundTrip | src/sl.c:964-979 | upper after lower is upper, lower after upper is lower, both are idempotent |
| Index.NormIdx | src/sl.c:1112-1125 | a negative index counts from the end, an index beyond the length saturates to it, any other index is kept; the result is at most the length |
| Index.NormIdxExamples | src/sl.c:1095-1111 | for length 4: -1 gives 3, -4 gives 0, 10 gives 4, 2 gives 2 |
| Index.Inv | src/sl.c:614-620 | a positive index up to len goes to (-len, 0], a non-positive one from -len goes to [0, len]; either way the index moves by exactly len |
| Index.InvKeepsPosition | src/sl.c:614-620 | for a non-zero index, the inverted index names the same position with the other sign, and inverting twice is the identity except at -len |
| Index.InvOfStartIsEnd | src/sl.c:614-620 | inverting 0 gives len, which names a different position |
| Index.InvIntended | src/sl.h:504-505 | the documented inversion: an index in [0, len) goes to [-len, 0), a negative one from -len to [0, len), moving by exactly len |
| Index.InvIntendedKeepsPosition | src/sl.h:504-505 | for every index in [-len, len), 0 included, the corrected inversion names the same position with the other sign and is its own inverse |
| Index.InvIntendedAgrees | src/sl.c:614-620 | the corrected inversion agrees with `slinv` at every index except 0 |
| Mem.CopyIn | src/sl.c:1137-1143 | the target holds the source at the offset and is unchanged elsewhere |
| Mem.Fill | src/sl.c:139-149 | n copies of the byte at the offset, unchanged elsewhere |
| Mem.MoveLeft | src/sl.c:294-303 | `memmove` to a lower address: the old source bytes land at the target, the rest is unchanged |
| Mem.MoveRight | src/sl.c:1188-1215 | `memmove` to a higher address: the old source bytes land at the target, the rest is unchanged |
| Search.IdxFrom | src/sl.c:647-670 | the result is -1 or a position where the pattern occurs |
| Search.IdxFromIsFirst | src/sl.c:647-670 | no occurrence before the result, and none at all when it is -1 |
| Search.Find | src/sl.c:739-780 | the search the tokenizer means: -1 or a match at or after the start, and -1 for an empty pattern |
| Search.FindIsFirst | src/sl.c:739-780 | -1 exactly when the pattern is empty or never matches; otherwise no match before the result |
| Search.FindSameTail | src/sl.c:739-780 | the search only reads the bytes from its start on |
| Search.Idx | src/sl.c:647-670 | the intended `slidx`: -1 or a match inside the string, -1 for an empty pattern |
| Search.IdxIsFirst | src/sl.c:647-670 | `Idx` is -1 exactly when there is no match; otherwise it is the first match |
| Search.Run | src/sl.c:653-667 | the inner comparison loop: the bytes it passes match the pattern and it stops at the first mismatch |
| Search.IdxAsWritten | src/sl.c:647-670 | `slidx` as written: -1 for an empty pattern, otherwise -1 or an index inside the string |
| Search.IdxAsWrittenMissesFirst | src/sl.c:653-667 | "aab" searched for "ab" gives 2 as written, while the first occurrence is 1 |
| Search.IdxAsWrittenOneByte | src/sl.c:647-670 | for a one-byte pattern the code as written returns the first occurrence |
| Search.IdxScanReaches | src/sl.c:647-670 | a scan reaches a full match that no earlier pattern-head byte precedes |
| Search.IdxAsWrittenFindsKl | src/sl.c:647-670 | "abcdefghijkl" searched for "kl" gives 10 |
| Search.IdxAsWrittenFindsL | src/sl.c:647-670 | "abcdefghijkl" searched for "l" gives 11 |
| Search.IdxAsWrittenFindsAb | src/sl.c:647-670 | "abcdefghijkl" searched for "ab" gives 0, and for "" gives -1 |
| Search.Fcr | src/sl.c:623-632 | the first c at or after pos, -1 when none; pos itself when pos is past the end |
| Search.Fcl | src/sl.c:635-644 | the last c at or before pos, -1 when none |
| Search.LastByte | src/sl.c:236-242 | 0 for the empty string, otherwise the last content byte |
| Search.Differ | src/sl.c:251-259 | 0 or 1 |
| Search.DifferOnText | src/sl.c:251-259 | for zero-free strings 0 means equal, both ways |
| Search.DifferIgnoresAfterZero | src/sl.c:251-259 | any two strings of equal length that agree up to and including a zero byte at the same index compare equal, whatever follows |
| SlString.Sl.Content | src/sl.h:15-26 | the content has len bytes and is followed by the terminator in storage |
| SlString.Sl.Length | src/sl.c:218-221 | the length of the content |
| SlString.Sl.Reservation | src/sl.c:224-227 | at least length plus one |
| SlString.Sl.End | src/sl.c:236-242 | the last content byte, or 0 |
| SlString.Sl.Differs | src/sl.c:251-259 | `Search.Differ` of the two contents |
| SlString.Sl.FindRight | src/sl.c:623-632 | the scan loop returns `Search.Fcr` of the content |
| SlString.Sl.FindLeft | src/sl.c:635-644 | the scan loop returns `Search.Fcl` of the terminated content |
| SlString.Sl.Index | src/sl.c:647-670 | the double loop returns `Search.IdxAsWritten` of the text |
| SlString.Sl.MatchRun | src/sl.c:653-667 | the inner loop stops after exactly `Search.Run` matching bytes |
| SlString.Sl.TextView | src/sl.c:647-670 | the C-string view of the content lies in storage and ends at a zero byte |
| SlString.Sl.New | src/sl.c:68-76 | an empty string with reservation `size` |
| SlString.Sl.Use | src/sl.c:79-86 | an empty string in a caller buffer: reservation is the buffer size less the 8-byte descriptor, so 128 bytes hold 119 characters |
| SlString.Sl.FromCStr | src/sl.c:195-202 | the C string's text with the minimum reservation, length + 1 |
| SlString.Sl.Sized | src/sl.c:205-215 | the C string's text with reservation max(size, length + 1) |
| SlString.Sl.Reserve | src/sl.c:97-108 | reservation becomes max(old, size); length and content are unchanged |
| SlString.Sl.Shrink | src/sl.c:111-124 | reservation becomes len + 1; content is unchanged |
| SlString.Sl.CopyBase | src/sl.c:1137-1143 | content becomes the `strncpy` image of the source; reservation becomes max(old, n + 1) |
| SlString.Sl.Copy | src/sl.c:127-130 | `CopyBase` with the other string's length |
| SlString.Sl.CopyC | src/sl.c:133-136 | content becomes the C string exactly |
| SlString.Sl.CatBase | src/sl.c:1169-1175 | content becomes old ++ source image; reservation becomes max(old, len + n + 1) |
| SlString.Sl.Cat | src/sl.c:268-271 | `CatBase` with the other string's length |
| SlString.Sl.CatC | src/sl.c:274-277 | content becomes old ++ the C string |
| SlString.Sl.Fill | src/sl.c:139-149 | content becomes old ++ cnt copies of c; reservation becomes max(old, len + cnt + 1) |
| SlString.Sl.InsertBase | src/sl.c:1188-1215 | content becomes old[..p] ++ source ++ old[p..] with p = `NormIdx(pos)`; reservation becomes max(old, len + n + 1) |
| SlString.Sl.Insert | src/sl.c:362-365 | `InsertBase` with the other string's length |
| SlString.Sl.InsertC | src/sl.c:368-371 | inserts the C string exactly at the normalised position |
| SlString.Sl.Push | src/sl.c:280-291 | c inserted at the normalised position; reservation becomes max(old, len + 2) |
| SlString.Sl.Pop | src/sl.c:294-303 | the byte at the normalised position is removed when it is inside; otherwise nothing changes; storage is kept |
| SlString.Sl.Limit | src/sl.c:306-312 | content becomes the first pos bytes of storage (old content prefix when pos <= len); storage is kept |
| SlString.Sl.Cut | src/sl.c:315-332 | cnt >= 0 drops the last cnt bytes, cnt < 0 drops the first -cnt; storage is kept |
| SlString.Sl.Select | src/sl.c:335-359 | content becomes old[min..max) of the two normalised indices, in either order; storage is kept |
| SlString.Sl.Clear | src/sl.c:187-192 | content becomes empty; storage is kept |
| SlString.Sl.Dup | src/sl.c:169-175 | a fresh copy with the same reservation |
| SlString.Sl.Rep | src/sl.c:178-184 | a fresh copy with reservation len + 1 |
| SlString.PushAsWritten | src/sl.c:280-291 | `slpsh` as written: it fails exactly when the storage holds only len + 1 bytes |
| SlString.PushAsWrittenOverruns | src/sl.c:284-289 | on a minimum-size string the code as written writes past the storage |
| SlString.PushAsWrittenWithRoom | src/sl.c:280-291 | with a spare byte the code as written inserts c and re-terminates |
| SlString.TerminatedCStr | src/sl.h:15-26 | a buffer with a zero at len reads as a C string no longer than len |
| Pieces.Occ | src/sl.c:1273-1304 | the next delimiter occurrence at or after a, which fits inside the string |
| Pieces.OccIsFind | src/sl.c:1273-1304 | it is the first-occurrence search `Search.Find` |
| Pieces.SegFrom | src/sl.c:1273-1304 | the piece starts: at least one, the first being a |
| Pieces.PiecesCount | src/sl.c:1273-1304 | one piece per recorded start |
| Pieces.SegBounds | src/sl.c:1273-1304 | the starts are strictly increasing and inside the string |
| Pieces.Join | src/sl.c:707-736 | no pieces join to empty, one piece joins to itself |
| Pieces.JoinLength | src/sl.c:707-736 | joined length = sum of the piece lengths + (n - 1) glue lengths |
| Pieces.JoinPieces | src/sl.c:1273-1304 | joining the pieces with the delimiter gives back the string |
| Pieces.PiecesTerminated | src/sl.c:1273-1304 | after the split, the C string at each recorded start is exactly its piece |
| Pieces.NulledRestores | src/sl.c:848-860 | swapping 0 back to the delimiter's first byte undoes the split |
| Pieces.DivNulledIsSwap | src/sl.c:1231-1257 | a split at one byte is the swap of that byte to 0 |
| Pieces.MapStep | src/sl.c:934-946 | one rewrite step: copy up to the match, emit t, skip f; or copy the tail |
| Pieces.MapIsJoin | src/sl.c:863-952 | replace-all equals joining the pieces at f with glue t |
| Pieces.MapLength | src/sl.c:910-912 | the replaced length is len + (pieces - 1) * (|t| - |f|) |
| Pieces.MapIdentity | src/sl.c:863-952 | replacing f by f, or replacing an absent f, changes nothing |
| Split.Record | src/sl.c:1231-1257 | the start table keeps at most `size` entries, the rest of the table is unchanged |
| Split.ByteStartsAreStarts | src/sl.c:1231-1257 | the byte scan's starts are the delimiter-split starts |
| Split.DivCount | src/sl.c:1231-1257 | the counting pass returns the number of pieces |
| Split.DivSplit | src/sl.c:1231-1257 | the split pass returns the count, swaps c to 0 in the buffer and records the starts |
| Split.SegCount | src/sl.c:1273-1304 | the counting pass returns the number of pieces |
| Split.SegScan | src/sl.c:1273-1304 | the split loop nulls each delimiter and records every start |
| Split.Div | src/sl.c:673-687 | size < 0 only counts and leaves the string unchanged; otherwise the string becomes the swap and the table holds the starts, in a fresh table when none is given |
| Split.Seg | src/sl.c:690-704 | the same for a delimiter string: the buffer becomes the nulled image |
| Split.DivCountIsCount | src/sl.c:1231-1257 | count mode returns occurrences + 1 |
| Split.DivUndone | src/sl.c:673-687 | each recorded start reads back its piece, the pieces join back to the string, and swapping 0 back restores it |
| Split.SegUndone | src/sl.c:690-704 | the same for a delimiter string |
| Split.DivAsWritten | src/sl.c:1231-1257 | `sldiv_base` as written: it fails only by reading past the buffer, and keeps its length |
| Split.DivAsWrittenAdjacent | src/sl.c:1245-1250 | "a,,b" splits into 2 pieces as written, while count mode counts 3 |
| Split.DivAsWrittenOverrun | src/sl.c:1245-1250 | "ab," steps past the terminator as written |
| Split.DivScanIsolated | src/sl.c:1236-1256 | from any point of the scan over a text where no c is followed by c or the end, the code as written records the byte scan's starts and nulls every c |
| Split.DivAsWrittenIsolated | src/sl.c:1231-1257 | on a C string where no c is followed by another c or by the terminator, with a slot per piece, the code as written returns the piece count, records exactly the split starts and leaves every c nulled, so `Split.DivUndone` applies to it |
| Split.DivAsWrittenTest | test/test_simple.c:216-243 | "XYabcXYabcXY" split at 'X' as written gives 4 pieces starting at 0, 1, 6 and 11 |
| Split.GlueInto | src/sl.c:724-733 | the copy loop writes the join of the pieces with the glue |
| Split.Glue | src/sl.c:707-736 | a fresh string whose content is the join and whose reservation is its length + 1 |
| Split.TokStep | src/sl.c:739-780 | one cursor step: a token start and a later cursor, or no token and the cursor finished or unchanged |
| Split.TokensIterate | src/sl.c:739-780 | the token sequence is the first step's token followed by the tokens from its cursor |
| Split.TokensAtPieces | src/sl.c:755-778 | the tokens after a cursor are the trimmed pieces after it |
| Split.TokensArePieces | src/sl.c:739-780 | no tokens without a delimiter; otherwise the pieces of the split, less a trailing empty piece |
| Split.TokExample | src/sl.c:739-780 | "XYabXYabcXYc" at "XY" gives "", "ab", "abc", "c" |
| Split.TokenReads | src/sl.c:739-780 | the C string at a token start is that token |
| Split.Tok | src/sl.c:739-780 | a call returns `TokStep`, leaves the buffer at the cursor's image and restores the original string when no token is returned |
| Split.Ext | src/sl.c:783-795 | an extension is found exactly when the pattern occurs, and the string is then cut at its first occurrence |
| Mapping.MapCount | src/sl.c:898-908 | the counting loop returns the number of occurrences of f |
| Mapping.Grow | src/sl.c:910-922 | grows to the replaced length and shifts the content to the right end |
| Mapping.Rewrite | src/sl.c:934-949 | the left-to-right rewrite leaves the replaced text, terminated |
| Mapping.Map | src/sl.c:863-952 | content becomes the replace-all of f by t; the reservation grows exactly when t is longer than f |
| Mapping.MapNotShorter | src/sl.c:880-914 | for a longer t the result is no shorter than the string |
| Mapping.MapShrinks | src/sl.c:923-932 | with a shorter t and an occurrence, the result is strictly shorter |
| Mapping.MapAsWritten | src/sl.c:863-952 | `slmap` as written: right when t is longer, but when t is shorter and f occurs the length is not updated and the content is wrong |
| Mapping.MapExamples | src/sl.c:863-952 | "XYabcXYabcXY" with XY to GIG gives "GIGabcGIGabcGIG"; "XYabcXYabc" with XY to GG gives "GGabcGGabc" |
| Mapping.MapStaleExample | src/sl.c:923-932 | "XYabc" with XY to G gives "Gabc", one byte shorter than the length the code keeps |
| Rewrite.Swp | src/sl.c:848-860 | content becomes the swap; storage is kept |
| Rewrite.Cap | src/sl.c:955-961 | content becomes its capitalisation |
| Rewrite.CapitalizedIsFirstUpper | src/sl.c:955-961 | only the first byte changes, exactly when it is lower case, and upper-casing it all gives the same |
| Rewrite.Tou | src/sl.c:964-970 | every content byte is upper-cased |
| Rewrite.Tol | src/sl.c:973-979 | every content byte is lower-cased |
| Rewrite.LastSlash | src/sl.c:798-845 | -1 exactly when there is no '/', otherwise the last '/' |
| Rewrite.DirBaseSplit | src/sl.c:798-845 | directory, '/' and base name rebuild the path; the base has no '/'; "." and the whole path when there is none |
| Rewrite.SlashScan | src/sl.c:802-805 | the backward scan stops at the last '/' or at position 0 |
| Rewrite.Dir | src/sl.c:798-823 | content becomes the directory part; storage is kept |
| Rewrite.Bas | src/sl.c:826-845 | content becomes the base name, moved to the front; storage is kept |
| Rewrite.PathExamples | src/sl.c:798-845 | "/foo/bar/dii.txt" gives "/foo/bar" and "dii.txt"; "/foo" gives "/" and "foo"; "dii.txt" gives "." and itself |
| Decimal.DigitByte | src/sl.c:1334-1356 | the ASCII digit of a value below 10 reads back as it |
| Decimal.U64TextReadsBack | src/sl.c:1314-1356 | the decimal text is non-empty digits, reads back as the number, has no leading zero, and has exactly as many digits as the number needs |
| Decimal.U64TextInjective | src/sl.c:1334-1356 | different numbers have different texts |
| Decimal.LowFirstReversed | src/sl.c:1334-1356 | the digits emitted lowest first, reversed, are the decimal text |
| Decimal.U64StrLen | src/sl.c:1314-1324 | the counting loop returns the length of the decimal text |
| Decimal.EmitLowFirst | src/sl.c:1338-1345 | the first loop writes the digits lowest first and nothing else |
| Decimal.ReverseInPlace | src/sl.c:1347-1356 | the second loop reverses the range in place and nothing else |
| Decimal.U64ToStr | src/sl.c:1334-1356 | the buffer holds the decimal text and a terminator at the offset and is unchanged elsewhere |
| Decimal.Negate64 | src/sl.c:1366-1390 | assuming the compiler wraps signed overflow, the two's-complement negation of any 64-bit negative, INT64_MIN included, read as unsigned, is its magnitude |
| Decimal.I64TextReadsBack | src/sl.c:1366-1390 | the signed text starts with '-' exactly for negatives, is digits otherwise, and reads back as the number |
| Decimal.I64MinText | src/sl.c:1382-1390 | INT64_MIN prints as '-' followed by 9223372036854775808 |
| Decimal.I64StrLen | src/sl.c:1366-1373 | the length of the signed text |
| Decimal.I64ToStr | src/sl.c:1382-1390 | the buffer holds the signed text and a terminator at the offset and is unchanged elsewhere |
| Decimal.TextExamples | src/sl.c:1314-1390 | 0, 7, 42 and 100 print as "0", "7", "42", "100"; -42 prints as "-42" |
| Format.ReadAs | src/sl.c:456-490 | an argument of the directive's kind is read as itself; a character is read by %i or %u as its code; a signed value is read as unsigned and back when both hold it; an SL string is read by %s; reads between pointers and integers, a character read as a 64-bit integer and a C string read as an SL string are undefined (None) |
| Format.ArgText | src/sl.c:533-606 | the text of one argument: the C string for %s, the content for %S, a signed or unsigned decimal that reads back as the value, the byte for %c |
| Format.Step | src/sl.c:533-606 | one format step moves forward and uses at most one argument; a plain byte copies itself; it fails exactly at a directive whose argument is missing or cannot be read for it |
| Format.PlainTextExpands | src/sl.c:600-603 | a format without '%' expands to itself |
| Format.ExpandStep | src/sl.c:533-606 | an expansion is its first step's text followed by the rest's expansion |
| Format.MeasurePass | src/sl.c:447-518 | on the format text up to its terminator, the measure loop, corrected, returns the expansion's length |
| Format.WriteStep | src/sl.c:533-606 | one write step puts the step's text at the write position and changes nothing else |
| Format.WriteExpansion | src/sl.c:533-606 | the write loop leaves the expansion at the write position and changes nothing else |
| Format.WritePass | src/sl.c:530-608 | on the format text up to its terminator, the buffer holds the expansion and a terminator at the end of the old content, and is unchanged elsewhere |
| Format.Vpq | src/sl.c:426-611 | content becomes old ++ the expansion of the format up to its first zero byte; reservation becomes max(old, len + 1 + its length) |
| Format.ExpandExample | src/sl.c:426-611 | "%s=%i%%" with "x" and -5 expands to "x=-5%" |
| Format.ExpandStopsAtZero | src/sl.c:533 | the format "a\0b" appends only "a" |
| Format.MeasureAsWritten | src/sl.c:447-518 | the measure pass as written, reading misaligned arguments as `Format.ReadAs` says: on formats whose directives are all known and not %c, it returns the expansion's length |
| Format.MeasureAsWrittenOnPlain | src/sl.c:447-518 | on formats of plain bytes and non-%c directives the measure as written agrees with the expansion |
| Format.MeasureSkipsCharArg | src/sl.c:492-495 | "%c%s" with 'A', "B": the measure as written hands the %c argument 'A' to %s, an integer read as a pointer (undefined, None), while the expansion is "AB" |
| Format.MeasureOvercountsAfterChar | src/sl.c:468-495 | "%c%i" with 'A', 5: the measure as written reads 'A' as 65 for %i and counts 3, a defined read, while the expansion is the 2 bytes "A5" |
| Format.MeasureMissesUnknown | src/sl.c:502-504 | "%d": the measure as written counts 0, the write pass writes "d" |
| Format.MeasureRunsOff | src/sl.c:451-508 | "a%": the measure as written steps past the terminator, while the corrected expansion is "a" |

## Left out

- File input and output (`slrdf`, `slwrf`, `sl_fsize`) and printing (`slprn`, `sl_prn`): these are operating-system wrappers.
- `slfmt` and `slvpr`: they hand the format to libc `vsnprintf`, which is not part of this model. `slfmq` is `slvpq` behind `va_start`, so it is `Format.Vpq` itself.
- `slsrt` and `slcmp`: thin wrappers around libc `qsort` and `strcmp`.
- `slmul`: not declared in the header and not working as intended. It bumps a byte instead of the pointer and grows the length by cnt instead of cnt times the text length.
- `sldel`, `slsl`, the allocator macros and allocation failure. The library never checks for failure. A reallocation is modelled as a fresh array plus a copy of the old bytes.
- 32-bit sizes: reservation, length and indices are unbounded naturals, so the `uint32_t` wrap-around of the descriptor is not modelled.
- Format.Arg: `%i` and `%u` read a C `int` and an `unsigned int`. The model accepts any value of the 64-bit range for both, so 32-bit truncation of the argument is not modelled.
- Format.ReadAs: an `Int` or `UInt` argument does not record whether it was passed as a 32-bit or a 64-bit integer, so an `int` read as `int64_t` (undefined) is not told apart, and "held by both types" uses the 64-bit bound. A character is read as its byte value 0 to 255; with a signed `char`, bytes from 0x80 would be promoted to negative ints. `%c` reads only a character. Reads between pointers and integers, and a C string read by `%S`, are undefined in C and give `None`.
- `toupper`/`tolower` follow the ASCII rules, not the C locale.
- Aliasing: when a string is copied, concatenated or inserted into itself, the source is read as a value before the call. In C the overlapping `strncpy` is undefined (ISO C11 section 7.24.2.4).
- Format.Vpq: the format and the `%s`/`%S` arguments are values read before the call. In C they are read after `sl_ensure` (src/sl.c:521) may have moved the target, so passing the target string itself reads freed memory.
- Decimal.Negate64: `-i` on INT64_MIN is signed overflow, which ISO C11 section 6.5 paragraph 5 leaves undefined. The model assumes the usual wrap-around of the compiler.
- SlString.PushAsWritten: models the reservation shortfall only. `slpsh` also takes the base pointer (src/sl.c:283) before `sl_ensure` (src/sl.c:284) may move the string; the model keeps the storage in a field and does not show the stale pointer.
- Format.MeasureRunsOff: only the measure pass is modelled as written for a trailing '%'. The write pass as written copies the terminator (src/sl.c:591) and steps past it (src/sl.c:596) too.
- Split.Div, Split.Seg, Split.Tok, Split.Ext and Mapping.Map: these require a content without zero bytes. The C code scans with `strlen`/`*p` and so works on the text before the first zero.
- Split.Tok, Split.Seg, Split.Ext and Mapping.Map: these use the first-occurrence search (`Search.Find`), the corrected `slidx` (see Findings). The C code calls `slidx` as written.
- Split.Tok: the cursor is the datatype `Begin | At(i) | Finished`. `Finished` stands for the pointer to the terminator (`sl_end`) that the C code stores after the last token. That is the content end, not the start of the string.
- Split.Glue: requires at least one piece when the glue is not empty. With zero pieces the C code computes `size - 1` and underflows.
- SlString.Sl.FindLeft: requires pos <= len, because beyond it the C code reads outside the string.
- SlString.Sl.Index: requires a pattern without zero bytes (a C string).
- SlString.Sl.Cut: requires -len <= cnt <= len, because the C code does not check cnt.
- SlString.Sl.Limit: requires pos inside the storage, because the C code does not check pos. Beyond the old length the content is whatever the storage holds.
- Index.NormIdx: requires idx >= -len, because the C code does not check it; every caller inherits the requirement.
- Rewrite.Dir: requires the content to be non-empty or the reservation to be at least 2. On an empty string the C code writes ".", then a terminator at index 1, which is out of bounds with reservation 1.
- SlString.Sl.Use: models `sluse` on a caller buffer as a fresh array of the size minus the 8-byte descriptor. The storage being the caller's memory is not modelled.

## Findings

| source | as written | input that shows it | evidently intended | confidence | as-written member | corrected member |
|---|---|---|---|---|---|---|
| src/sl.c:647-670 | `slidx` never resets the pattern index `i2` after a partial match | "aab" searched for "ab" returns 2 | the first occurrence, 1 | not executed | Search.IdxAsWrittenMissesFirst | Search.IdxIsFirst |
| src/sl.c:1245-1250 | `sldiv_base` steps one extra byte after each recorded delimiter | "a,,b" split at ',' records 2 pieces while count mode counts 3; "ab," reads past the terminator | every delimiter starts a new piece, as in count mode | not executed | Split.DivAsWrittenAdjacent | Split.DivUndone |
| src/sl.c:923-949 | `slmap` with a shorter replacement never updates the length | "XYabc" with XY to G leaves length 5 over content "Gabc" | the length of the replaced text | not executed | Mapping.MapStaleExample | Mapping.Map |
| src/sl.c:280-291 | `slpsh` reserves len + 1 bytes but writes the terminator at len + 1 | pushing onto a string of reservation len + 1 | reserve len + 2, and take the base after `sl_ensure` (line 283 takes it before the call at line 284, which may move the string) | not executed | SlString.PushAsWrittenOverruns | SlString.Sl.Push |
| src/sl.c:492-495 | the measure pass of `slvpq` does not consume the `%c` argument, so later directives read the argument before their own | "%c%i" with 'A', 5 measures 3 while the write pass writes "A5", so the length grows past the terminator; "%c%s" with 'A', "B" reads 'A' as a pointer | count the byte and consume the argument | not executed | Format.MeasureOvercountsAfterChar | Format.MeasurePass |
| src/sl.c:502-504 | the measure pass counts 0 for an unknown directive, which the write pass copies | "%d" measures 0 and writes "d" | count 1 byte | not executed | Format.MeasureMissesUnknown | Format.MeasurePass |
| src/sl.c:451-508 | a trailing '%' steps past the terminator in both passes; the write pass copies the terminator (line 591) and steps past it (line 596), and only the measure pass is modelled as written | "a%" | stop at the end of the format | not executed | Format.MeasureRunsOff | Format.Step |
| src/sl.c:614-620 | `slinv` turns 0 into len, the terminator, while its documentation (src/sl.h:504-505) says the position is kept | `slinv` of 0 on "ab" returns 2 | return -len, the first byte | not executed | Index.InvOfStartIsEnd | Index.InvIntendedKeepsPosition |
