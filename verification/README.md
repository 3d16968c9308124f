# Verified models of openresty's algorithms

Dafny models of ten pieces of the openresty bundle, each with proofs of what the piece promises.
`dafny verify dfyconfig.toml` checks them all. Code that updates things in place is modelled by
classes, arrays and loops that are proved against a specification; what the code promises is then
proved about the specification. `Basics` holds what several models share.

| piece | modules | main results |
|---|---|---|
| drizzletest's control flow | `ControlFlow`, `Structured` | the flat interpreter and structured `if`/`while` programs end in the same way with the same trace; nesting is bounded by the block stack |
| drizzletest's delimiter reader | `Delimiter` | when a failed match undoes itself; the search is exact for every delimiter, and right for just those it should be |
| LIKE | `Like`, `LikeCorrect`, `LikeRange` | when the matcher computes LIKE, giving up loses nothing, the index range keeps every match |
| binary collation | `PadSpace` | comparison of space-extended strings, and when equal keys hash alike |
| Gregorian calendar | `Calendar` | closed forms against counting days, both round trips |
| Lua `struct` | `StructInt`, `StructFormat`, `StructPack`, `StructRoundTrip`, `StructBytes` | the bytes that a format's characters ask for, round trips of integers and of whole formats, size, padding |
| nginx consistent hash | `HashRing`, `RingSearch`, `PeerSelection`, `PeerRuns` | every node leads to its own peer, ring successor, minimal disruption, all that a call does, pairwise distinct peers over whole runs |
| drizzleimport's pool | `ImportPool` | bounded workers, safe end, and when an end can still be reached, over every interleaving |
| drizzle's line reader | `LineLexer`, `AddLine`, `LexerLaws`, `StatementLaws` | editing the line in place is reading an unchanging line; what becomes of strings, comments, commands and statements |
| drizzledump's row loop | `InsertBatcher`, `DumpText` | the statements written hold the input rows, in their one possible grouping; values read back; length against the byte counter |

## Where the code falls short of its promise

Each of these is proved for the code as it is, with the exact condition under which the promise holds.

- The cumulative month tables, which no function in calendar.cc reads, have 151 and 150 for the end of
  May, one too few (`Calendar.CumulativeTableIsExactExceptMay`, `Calendar.TableCountAgreesOutsideJune`).
- The LIKE matcher reads the byte past the end of the pattern when it decides whether to retry. If that
  byte is the `many` wildcard, a pattern that ends in `many` and one literal loses matches
  (`LikeCorrect.DecidesPatternIff`). An escape byte above 127 is compared signed in one place and unsigned
  in another (`LikeCorrect.ComputesLikeIff`).
- The range builder takes an escape that is also a wildcard for an escape; the matcher takes it for a
  wildcard; and an escape above 127 for one that the matcher does not see. Rows are lost for both
  (`LikeRange.RangeKeepsAllMatchesIff`).
- `skip_trailing_space` keeps one byte of an empty key, the one past its end, so the empty key and a
  space compare equal and can hash apart (`PadSpace.EqualKeysHashAlikeFrom`).
- Padding in `struct` assumes a power of two; a three-byte integer under `!4` is padded even at offset 0
  (`StructFormat.PaddingIsLeastIff`).
- A drizzleimport worker for which drizzle_create or drizzle_con_add_tcp gives no handle never gives its
  place back, and the main thread cannot end any more (`ImportPool.CanFinishIff`). A refused connection ends
  the whole process instead. `ImportPool.CanEndIff` says exactly when nothing can end it any more.
- A delimiter match that fails because the file ends inside the delimiter pushes the EOF back as a
  character (`Delimiter.UndoneIff`). A byte from 128 to 254 past a delimiter's first never matches what is
  read straight from a file, and a byte 255 there is matched by the end of the file
  (`Delimiter.SearchesIff`, `Delimiter.EndPassesForHighest`).
- drizzletest still reads a command after `exit`: on the last line of an open block it dies of the missing
  `end` instead (`Structured.MissingEndDies`).
- The dump's byte counter does not see NULLs, nor what escaping adds (`DumpText.StatementLength`).
- In `add_line` a comment whose text holds the opening of a server-side comment, or ends in a slash, does not
  end at its end mark (`LexerLaws.FirstEndIsTakenIff`).
- In `add_line` the space owed for a dropped comment is not paid before a character of several bytes or a
  backslash, which are joined to what stood before the comment (`LexerLaws.CommentSeparatesIff`).
- In `add_line` a kept `#` or `--` comment is sent at once when a statement has already begun, not, as the
  comment beside the code says, when the comment stands alone
  (`LineLexer.CommentSentIffBegun`).

## Model

| member | source | states |
|---|---|---|
| ControlFlow.Interpreter.constructor | openresty/drizzle7-2011.07.21/client/drizzletest.cc:5039-5050 | one live outermost block, nothing read, nothing executed |
| ControlFlow.Interpreter.ReadCommand | openresty/drizzle7-2011.07.21/client/drizzletest.cc:4093-4148 | a line already read comes from the cache, otherwise the next line of the file is read and cached; the end of the file is an error exactly when a block is open |
| ControlFlow.Interpreter.DoBlock | openresty/drizzle7-2011.07.21/client/drizzletest.cc:3599-3659 | the array of blocks after `if`/`while` is the stack of the specification with one block pushed, or the run dies when 32 blocks are in use; what the condition means is settled by `Structured.OpensLive` |
| ControlFlow.Interpreter.DoDone | openresty/drizzle7-2011.07.21/client/drizzletest.cc:3547-3570 | `end` pops a block and goes back to the saved line for a live `while`, on to the next line otherwise; without a block it dies |
| ControlFlow.Interpreter.Turn | openresty/drizzle7-2011.07.21/client/drizzletest.cc:5206-5491 | one turn over array, cursor and cache is one step of the flat machine |
| ControlFlow.Interpreter.Run | openresty/drizzle7-2011.07.21/client/drizzletest.cc:5206-5491 | any number of turns is that number of steps |
| Structured.SkipsIgnored | openresty/drizzle7-2011.07.21/client/drizzletest.cc:3613-3621 | an ignored piece of code, however deeply nested, is passed over without executing or evaluating anything and with the stack as it was; the run dies exactly when it nests past the stack |
| Structured.Simulates | openresty/drizzle7-2011.07.21/client/drizzletest.cc:3547-3659 | in a live block the flat machine does to any well-formed code what its structured meaning says: same events, same stack, line after the code |
| Structured.SimulatesNest | openresty/drizzle7-2011.07.21/client/drizzletest.cc:3599-3659 | the same for one `if` or `while`, by taking the branch or passing over it |
| Structured.SkipsBody | openresty/drizzle7-2011.07.21/client/drizzletest.cc:3649-3655 | when the condition fails the flat machine passes over the body and leaves the block |
| Structured.AfterBody | openresty/drizzle7-2011.07.21/client/drizzletest.cc:3557-3569 | after the body a `while` evaluates its condition again and an `if` is left |
| Structured.EndOfExec | openresty/drizzle7-2011.07.21/client/drizzletest.cc:5206-5491 | a whole file ends as the structured program does, and when the structured program needs more turns the flat one is still running, with the same trace |
| Structured.TracesAgree | openresty/drizzle7-2011.07.21/client/drizzletest.cc:5206-5491 | whether a program ends or not: what the flat interpreter has executed and evaluated after any number of turns the structured program does too, in that order, and conversely |
| Structured.FlatMeansStructured | openresty/drizzle7-2011.07.21/client/drizzletest.cc:5206-5491 | the flat interpreter ends a well-nested file in a given way, with a given trace, if and only if the structured program does |
| Structured.DepthDecides | openresty/drizzle7-2011.07.21/client/drizzletest.cc:168-169 | a program within the room of the stack (31 blocks for a file) never dies of nesting, and only such a program gets through |
| Structured.OpensLive | openresty/drizzle7-2011.07.21/client/drizzletest.cc:3649-3655 | a block in a live one is entered live exactly if its value is not 0, or with `!` exactly if it is 0 |
| Structured.StrayEndDies | openresty/drizzle7-2011.07.21/client/drizzletest.cc:3549-3555 | a program with an `end` too many runs and then dies of it |
| Structured.MissingEndDies | openresty/drizzle7-2011.07.21/client/drizzletest.cc:4093-4113 | with an `end` too few the block is entered or passed over as its condition says and the run dies at the end of the file, even of a command that asks to exit |
| Delimiter.Reader.MyGetc | openresty/drizzle7-2011.07.21/client/drizzletest.cc:2392-2397 | takes the first int of what is left: a pushed-back character as it is, signed; a byte of the file, unsigned; at the end EOF |
| Delimiter.Reader.MyUngetc | openresty/drizzle7-2011.07.21/client/drizzletest.cc:2400-2403 | puts a character in front of what is left |
| Delimiter.Reader.ReadTail | openresty/drizzle7-2011.07.21/client/drizzletest.cc:3687-3690 | reads on exactly as long as the delimiter, any delimiter, matches the ints read |
| Delimiter.Reader.Unread | openresty/drizzle7-2011.07.21/client/drizzletest.cc:3695-3698 | puts the characters of a failed match back in their order, within the buffer |
| Delimiter.Reader.MatchDelimiter | openresty/drizzle7-2011.07.21/client/drizzletest.cc:3679-3700 | for every delimiter: the outcome and the input afterwards are those of the specification, the 16-character buffer never overflows, and a failed match leaves the input as it was if and only if the input does not end inside the delimiter |
| Delimiter.UndoneIff | openresty/drizzle7-2011.07.21/client/drizzletest.cc:3687-3699 | the same of the specification: the input is restored unless all that is left of it matches without completing the delimiter |
| Delimiter.EndIsPutBack | openresty/drizzle7-2011.07.21/client/drizzletest.cc:3695-3696 | the failing input: at the end of a file the first of two characters leaves behind a character that was never there |
| Delimiter.Reader.ReadUntilDelimiter | openresty/drizzle7-2011.07.21/client/drizzletest.cc:2406-2443 | dies on an overlong delimiter and on text after the command; otherwise the outcome and the input left are those of the search, for every delimiter and every state of the buffer, and the lines of the text are counted |
| Delimiter.Reader.ScanFor | openresty/drizzle7-2011.07.21/client/drizzletest.cc:2413-2442 | the loop past the command's line is the search |
| Delimiter.Reader.ScanOne | openresty/drizzle7-2011.07.21/client/drizzletest.cc:2415-2441 | one turn is one turn of the search, and counts a line exactly for a newline |
| Delimiter.SearchTurn | openresty/drizzle7-2011.07.21/client/drizzletest.cc:2415-2441 | with a delimiter that is ASCII past its first character, one turn finds the leftmost occurrence or moves one character to the text, and misses none even when the lookahead meets the end |
| Delimiter.SearchMeans | openresty/drizzle7-2011.07.21/client/drizzletest.cc:2413-2442 | with such a delimiter the search gives precisely the text before the leftmost occurrence and leaves what follows it, and dies exactly when there is none |
| Delimiter.SearchesIff | openresty/drizzle7-2011.07.21/client/drizzletest.cc:2413-2442 | every file is searched rightly from an empty buffer if and only if the delimiter is ASCII past its first character |
| Delimiter.HighTailMissed | openresty/drizzle7-2011.07.21/client/drizzletest.cc:3687-3689 | any other delimiter is missed in the file that consists of it, and with a byte from 128 to 254 the file is refused |
| Delimiter.HighTailNeverFound | openresty/drizzle7-2011.07.21/client/drizzletest.cc:3687-3689 | with a byte from 128 to 254 that is not among the pushed-back characters the search never finds anything |
| Delimiter.EndPassesForHighest | openresty/drizzle7-2011.07.21/client/drizzletest.cc:3687-3693 | the byte 255 is matched by the end of the file: a delimiter is found that is not there |
| Delimiter.ReadBack | openresty/drizzle7-2011.07.21/client/drizzletest.cc:3695-3698 | what was read, put back, is the input before the attempt, and a character for each EOF that was read |
| Like.MyWildcmpBin | openresty/drizzle7-2011.07.21/drizzled/ctype-bin.cc:315-390 | the loops over both cursors compute the matcher's recursive specification |
| Like.LiteralRun | openresty/drizzle7-2011.07.21/drizzled/ctype-bin.cc:324-333 | the run over literals reaches the next wildcard with the verdict unchanged, or decides |
| Like.OneRun | openresty/drizzle7-2011.07.21/drizzled/ctype-bin.cc:334-344 | so does the run over single wildcards |
| Like.MatchAfterMany | openresty/drizzle7-2011.07.21/drizzled/ctype-bin.cc:345-387 | skipping further wildcards and trying each occurrence of the next literal |
| LikeCorrect.WildCmpMeans | openresty/drizzle7-2011.07.21/drizzled/ctype-bin.cc:315-390 | 0 only for a match; for a safe pattern every match gives 0 and -1 means that no suffix matches |
| LikeCorrect.AfterManyMeans | openresty/drizzle7-2011.07.21/drizzled/ctype-bin.cc:345-387 | past a `many` wildcard 0 means that some suffix matches, and for a safe pattern every matching suffix is found |
| LikeCorrect.SearchMeans | openresty/drizzle7-2011.07.21/drizzled/ctype-bin.cc:373-386 | the retry loop finds a matching suffix if there is one |
| LikeCorrect.GivingUpIsSound | openresty/drizzle7-2011.07.21/drizzled/ctype-bin.cc:380-383 | after -1 no suffix of the string is accepted, so returning at once loses no match |
| LikeCorrect.LoneLiteralLost | openresty/drizzle7-2011.07.21/drizzled/ctype-bin.cc:385-386 | for every pattern that is not safe, a string that LIKE accepts and the matcher gives up on |
| LikeCorrect.DecidesPatternIff | openresty/drizzle7-2011.07.21/drizzled/ctype-bin.cc:385-386 | the matcher decides a pattern on all strings if and only if the byte past the pattern is not `many` or the pattern does not end in `many`, single wildcards and one literal |
| LikeCorrect.ScansAsTokens | openresty/drizzle7-2011.07.21/drizzled/ctype-bin.cc:326-327 | with an escape that reads the same signed and unsigned the pattern is read as LIKE with escape reads it |
| LikeCorrect.HighEscapeMisread | openresty/drizzle7-2011.07.21/drizzled/ctype-bin.cc:368-369 | with any other escape some pattern and string get the wrong verdict |
| LikeCorrect.ComputesLikeIff | openresty/drizzle7-2011.07.21/drizzled/ctype-bin.cc:315-390 | the matcher computes LIKE on all strings and patterns if and only if the escape reads the same signed and unsigned and the byte past the pattern is not `many` |
| LikeRange.MyLikeRangeMb | openresty/drizzle7-2011.07.21/drizzled/ctype-mb.cc:575-703 | both buffers and both lengths are those of the range of the pattern's tokens |
| LikeRange.CopyPrefix | openresty/drizzle7-2011.07.21/drizzled/ctype-mb.cc:591-698 | both buffers start with the literal prefix that fits; whether a wildcard was reached |
| LikeRange.FillRest | openresty/drizzle7-2011.07.21/drizzled/ctype-mb.cc:608-611 | the rest of a buffer holds the fill byte and nothing before it changes |
| LikeRange.MatchStartsWithPrefix | openresty/drizzle7-2011.07.21/drizzled/ctype-mb.cc:591-698 | a matching string starts with the prefix, and is the prefix when the pattern was read to its end |
| LikeRange.RangeIsSound | openresty/drizzle7-2011.07.21/drizzled/ctype-mb.cc:598-703 | every accepted string, cut or padded to the key length, lies bytewise between min and max, which coincide when no wildcard is reached |
| LikeRange.RangeIsExact | openresty/drizzle7-2011.07.21/drizzled/ctype-mb.cc:598-620 | for literals and a `many` wildcard the keys in the range are just the strings that the pattern accepts; with the lengths reported |
| LikeRange.RangeSpelled | openresty/drizzle7-2011.07.21/drizzled/ctype-mb.cc:598-620 | with any wildcard in reach: the literals before it, then the smallest and the greatest bytes, and the lengths reported |
| LikeRange.LengthsWithoutWildcard | openresty/drizzle7-2011.07.21/drizzled/ctype-mb.cc:700-703 | without one: the literals that fit, spaces, and both lengths those of the literals |
| LikeRange.ReadsAsTokens | openresty/drizzle7-2011.07.21/drizzled/ctype-mb.cc:594-596 | with an escape that is no wildcard the range builder reads a pattern as LIKE does |
| LikeRange.ReadsAsTokensIff | openresty/drizzle7-2011.07.21/drizzled/ctype-mb.cc:594-596 | and only with such an escape on all patterns |
| LikeRange.RangeKeepsAllMatches | openresty/drizzle7-2011.07.21/drizzled/ctype-mb.cc:575-703 | with an escape that is no wildcard and below 128, what the matcher accepts is in the range that the builder makes of the same pattern |
| LikeRange.EscapeLosesRows | openresty/drizzle7-2011.07.21/drizzled/ctype-mb.cc:594-596 | for every other escape a pattern and a string that the matcher accepts and whose key is out of the range |
| LikeRange.RangeKeepsAllMatchesIff | openresty/drizzle7-2011.07.21/drizzled/ctype-mb.cc:575-703 | the range keeps the rows of all patterns that the matcher accepts if and only if the escape is no wildcard and below 128, or keys have no room at all |
| PadSpace.Strnncollsp8bitBin | openresty/drizzle7-2011.07.21/drizzled/ctype-bin.cc:168-212 | the sign of the result is the order of the strings extended with unlimited spaces, in all three cases |
| PadSpace.Trichotomy | openresty/drizzle7-2011.07.21/drizzled/ctype-bin.cc:162-165 | exactly one of less, equal and greater |
| PadSpace.AtMostIsTransitive | openresty/drizzle7-2011.07.21/drizzled/ctype-bin.cc:168-212 | the order is transitive, strictly so if one step is strict |
| PadSpace.SkipTrailingSpace | openresty/drizzle7-2011.07.21/drizzled/internal/m_string.h:114-122 | how many bytes are kept, one past the empty key included |
| PadSpace.KeptBounds | openresty/drizzle7-2011.07.21/drizzled/internal/m_string.h:114-122 | only white space follows what is kept, which ends in no white space unless it is one byte |
| PadSpace.HashSort8bitBin | openresty/drizzle7-2011.07.21/drizzled/ctype-bin.cc:270-287 | the new state is the 32-bit hash of the kept bytes from the old state |
| PadSpace.XorBit | openresty/drizzle7-2011.07.21/drizzled/ctype-bin.cc:284 | a bit of an exclusive or is set where just one of the two has it |
| PadSpace.ByteHashed | openresty/drizzle7-2011.07.21/drizzled/ctype-bin.cc:284-285 | what one byte does to every bit of the first number and to the second number |
| PadSpace.HashedInOrder | openresty/drizzle7-2011.07.21/drizzled/ctype-bin.cc:282-286 | bytes are hashed one after the other |
| PadSpace.EqualKeysHashAlike | openresty/drizzle7-2011.07.21/drizzled/ctype-bin.cc:270-287 | non-empty keys that compare equal hash alike from every state |
| PadSpace.EqualKeysHashAlikeFrom | openresty/drizzle7-2011.07.21/drizzled/ctype-bin.cc:276-286 | from each usual state, keys that compare equal hash alike if and only if neither is empty or the first hashed bytes are the same |
| PadSpace.StatesAreUsual | openresty/drizzle7-2011.07.21/drizzled/ctype-bin.cc:282-286 | the states after up to five million bytes from (1, 4) or (0, 4), where all callers start, are usual |
| PadSpace.EqualKeysHashAlikeIff | openresty/drizzle7-2011.07.21/drizzled/ctype-bin.cc:276-280 | the same condition decides whether they hash alike from every state whatever |
| PadSpace.EmptyKeyHashesApart | openresty/drizzle7-2011.07.21/drizzled/ctype-bin.cc:276-280 | the empty key and one space compare equal and hash apart, from every usual state, when anything but a space follows the empty key in memory |
| Calendar.LeapRule | openresty/drizzle7-2011.07.21/drizzled/calendar.cc:241-252 | the year's length is the leap rule's: every fourth year, not every hundredth, but every four hundredth |
| Calendar.YearsClosedForm | openresty/drizzle7-2011.07.21/drizzled/calendar.cc:241-252 | the lengths of all earlier years add up to the closed form 365y + y/4 - y/100 + y/400 |
| Calendar.ClosedFormCountsDays | openresty/drizzle7-2011.07.21/drizzled/calendar.cc:101-134 | the closed form's absolute day number is the count of all earlier years, months and days |
| Calendar.CumulativeTableIsExactExceptMay | openresty/drizzle7-2011.07.21/drizzled/calendar.cc:49-50 | an entry of the cumulative table is the sum of the month lengths if and only if it is not the entry for the end of May, which is one too small |
| Calendar.TableCountAgreesOutsideJune | openresty/drizzle7-2011.07.21/drizzled/calendar.cc:49-50 | so counting with the table agrees with the closed form if and only if the date is not in June |
| Calendar.NextDayIsNextNumber | openresty/drizzle7-2011.07.21/drizzled/calendar.cc:101-110 | the next calendar day is valid and has the next number |
| Calendar.FourCenturies | openresty/drizzle7-2011.07.21/drizzled/calendar.cc:101-110 | 400 years later is 146097 days later |
| Calendar.DayNumbersOrderDates | openresty/drizzle7-2011.07.21/drizzled/calendar.cc:101-110 | day numbers order dates as the calendar does, and no two dates share one |
| Calendar.CyclesOf | openresty/drizzle7-2011.07.21/drizzled/calendar.cc:153-162 | the decoder's quotients and remainders are 400-, 100-, 4- and 1-year cycles within their bounds that add up to the number |
| Calendar.MarchDate | openresty/drizzle7-2011.07.21/drizzled/calendar.cc:162-172 | the day of a March year becomes a valid date whose count it is |
| Calendar.DecodedDate | openresty/drizzle7-2011.07.21/drizzled/calendar.cc:148-173 | every day number from 1 January of year 1 on decodes to a valid date whose count it is |
| Calendar.DayNumberRoundTrip | openresty/drizzle7-2011.07.21/drizzled/calendar.cc:101-173 | day number to date and back is the identity |
| Calendar.DateRoundTrip | openresty/drizzle7-2011.07.21/drizzled/calendar.cc:101-173 | date to day number and back is the identity |
| StructInt.PutInteger | openresty/struct-0.2/struct.c:167-191 | the bytes are the base-256 digits of the value modulo 2^64, in either order |
| StructInt.GetInteger | openresty/struct-0.2/struct.c:264-288 | shifting, masking and sign extension give the 64-bit number that the digits stand for |
| StructInt.CorrectBytes | openresty/struct-0.2/struct.c:194-203 | the array is reversed in place unless the order is the native one |
| StructInt.BitsAreDivision | openresty/struct-0.2/struct.c:178-181 | shifting and masking are division and remainder by a power of two |
| StructInt.IntegerRoundTrip | openresty/struct-0.2/struct.c:167-191 | reading back what was written gives the value modulo 256^size, in its unsigned or two's-complement representative |
| StructInt.InRangeComesBack | openresty/struct-0.2/struct.c:264-288 | a number in range comes back, also from an unsigned field of more than 8 bytes |
| StructInt.OnlyInRangeComesBack | openresty/struct-0.2/struct.c:264-288 | and for sizes 1 to 8 only such a number does |
| StructInt.OrdersAreReversals | openresty/struct-0.2/struct.c:176-190 | the two byte orders are reversals of each other |
| StructFormat.AndMask | openresty/struct-0.2/struct.c:139 | masking with 2^k - 1 is the remainder |
| StructFormat.IsPower2Iff | openresty/struct-0.2/struct.c:62 | the test accepts exactly the powers of two |
| StructFormat.PaddingIsLeastIff | openresty/struct-0.2/struct.c:135-140 | padding always is the least that reaches a multiple of m = min(size, align) if and only if m is a power of two |
| StructFormat.PowerOf2Pads | openresty/struct-0.2/struct.c:135-140 | for a power of two it is (m - len mod m) mod m |
| StructFormat.ItemsAreWellSized | openresty/struct-0.2/struct.c:109-128 | the items that a format is read as have the sizes the options allow: integers at most 32 bytes, padding 1, `s` and the control options none |
| StructPack.ReadNumber | openresty/struct-0.2/struct.c:92-102 | the loop reads the longest run of digits, or gives the default |
| StructPack.ReadNext | openresty/struct-0.2/struct.c:109-164 | optsize and controloptions, reading numbers by the loop, give the next item and the header in force after it |
| StructPack.EncodeArgument | openresty/struct-0.2/struct.c:221-256 | one turn of pack's switch, with its errors |
| StructPack.EncodeText | openresty/struct-0.2/struct.c:243-254 | `c` and `s` take the string or as much of it as asked for, and fail on a shorter one |
| StructPack.BPack | openresty/struct-0.2/struct.c:206-261 | the loop with cursor, header and buffer packs the items that the format is read as, or gives the first error |
| StructPack.DecodeField | openresty/struct-0.2/struct.c:305-350 | one turn of unpack's switch, with its errors |
| StructPack.DecodeChars | openresty/struct-0.2/struct.c:330-340 | `c0` pops the number read before it and takes as many bytes |
| StructPack.MemChr | openresty/struct-0.2/struct.c:341-345 | the first zero from a position on, or none |
| StructPack.BUnpack | openresty/struct-0.2/struct.c:291-355 | the loop unpacks the same items, or gives the first error |
| StructPack.BSize | openresty/struct-0.2/struct.c:358-377 | the loop sizes the same items, or gives the first error |
| StructRoundTrip.Lp64IsSound | openresty/struct-0.2/struct.c:167-191 | integers in range and the float bytes of the machine come back |
| StructRoundTrip.DecodesField | openresty/struct-0.2/struct.c:305-350 | decoding a field finds what encoding put there |
| StructRoundTrip.RoundTripFrom | openresty/struct-0.2/struct.c:291-355 | the same for a list of items in the middle of a string, whatever follows it |
| StructRoundTrip.ResultsAreReturned | openresty/struct-0.2/struct.c:291-355 | what unpacking leaves is each argument that was taken, those of `cn` cut to n bytes, but for the lengths that a `c0` uses up |
| StructRoundTrip.RoundTrip | openresty/struct-0.2/struct.c:206-355 | unpacking a packed string, whatever follows it, with the same format gives just that, and the position after it |
| StructRoundTrip.ReturnedAreArguments | openresty/struct-0.2/struct.c:291-355 | without `c0` and with `cn` arguments of exactly n bytes what comes back is the arguments themselves, in order |
| StructRoundTrip.ArgumentsComeBack | openresty/struct-0.2/struct.c:206-355 | so unpacking gives back the packed arguments and the position after them |
| StructRoundTrip.SizeIsPackedLength | openresty/struct-0.2/struct.c:358-377 | for a format that pack accepts the size is the packed length, or an error exactly when the format has an `s` or `c0` |
| StructBytes.PackedInteger | openresty/struct-0.2/struct.c:148-191 | from the format's characters: `<`, `>` or nothing and an integer option give as many bytes as the option says, byte i counted from the low end being v / 256^i mod 256, low end first, last, or as the machine has it |
| StructBytes.UnpackedInteger | openresty/struct-0.2/struct.c:264-312 | and read back the value modulo 256^size, as a negative number for the lower-case options only |
| StructBytes.PackedString | openresty/struct-0.2/struct.c:243-254 | `s` packs the string and a zero |
| StructBytes.PackedChars | openresty/struct-0.2/struct.c:243-254 | `cn` packs the first n bytes, `c` one and `c0` all, and refuses a shorter string |
| StructBytes.PackedPad | openresty/struct-0.2/struct.c:227-230 | `x` packs a zero |
| StructBytes.PackedFloat | openresty/struct-0.2/struct.c:231-242 | `f` and `d` pack the bytes in memory, turned round exactly if the order asked for is not the machine's |
| StructBytes.AlignmentAsked | openresty/struct-0.2/struct.c:152-158 | `!n` puts alignment n in force if n is a power of two and is refused otherwise; `!` alone asks for 8 |
| StructBytes.PaddedWithZeros | openresty/struct-0.2/struct.c:218-220 | an item's bytes follow zeros, as many as it takes to reach a multiple of its size or of the alignment if that is less, and none before characters |
| StructBytes.PacksIff | openresty/struct-0.2/struct.c:206-261 | pack accepts its arguments if and only if each is what its item needs |
| StructBytes.UnpacksIff | openresty/struct-0.2/struct.c:291-355 | what has a fixed size is unpacked if and only if there is enough data and no signed field is wider than 8 bytes |
| StructBytes.UnknownRefused | openresty/struct-0.2/struct.c:159-162 | characters that are no option are refused |
| StructBytes.WideRefused | openresty/struct-0.2/struct.c:119-125 | integers of more than 32 bytes are refused |
| StructBytes.ShortData | openresty/struct-0.2/struct.c:303 | data that is too short is refused |
| StructBytes.UnfinishedString | openresty/struct-0.2/struct.c:342-344 | so is a string without its zero |
| StructBytes.NoSizeBefore | openresty/struct-0.2/struct.c:331-333 | and a `c0` without a number before it |
| StructBytes.UnknownSized | openresty/struct-0.2/struct.c:371-372 | size passes over letters and digits that are no option and refuses other characters |
| HashRing.FindRrPeer | openresty/ngx_http_consistent_hash-1.0/ngx_http_upstream_consistent_hash_module.c:224-237 | the first peer with that very socket address, or none |
| HashRing.FillContinuum | openresty/ngx_http_consistent_hash-1.0/ngx_http_upstream_consistent_hash_module.c:159-203 | an unresolved address is an error; otherwise the first nnodes = points_per_node * real_nodes <= 65536 nodes are those of all servers in order |
| HashRing.FillServer | openresty/ngx_http_consistent_hash-1.0/ngx_http_upstream_consistent_hash_module.c:181-202 | the nodes of one server are appended |
| HashRing.FillAddr | openresty/ngx_http_consistent_hash-1.0/ngx_http_upstream_consistent_hash_module.c:189-201 | the nodes of one address are appended |
| HashRing.AllNodesCount | openresty/ngx_http_consistent_hash-1.0/ngx_http_upstream_consistent_hash_module.c:159-203 | there are points_per_node nodes for every unit of weight of every address |
| HashRing.RingFitsIff | openresty/ngx_http_consistent_hash-1.0/ngx_http_upstream_consistent_hash_module.c:170-178 | the nodes fit the array of 65536 if and only if there are no more real nodes than that, and no larger points_per_node would fit |
| RingSearch.Find | openresty/ngx_http_consistent_hash-1.0/ngx_http_upstream_consistent_hash_module.c:273-304 | terminates on every sorted ring, duplicates included, with the lowest node at or past the point, or node 0 if none is |
| RingSearch.SuccessorIsUnique | openresty/ngx_http_consistent_hash-1.0/ngx_http_upstream_consistent_hash_module.c:273-304 | there is one such node |
| RingSearch.SuccessorIsNearest | openresty/ngx_http_consistent_hash-1.0/ngx_http_upstream_consistent_hash_module.c:273-304 | it is the nearest one clockwise |
| RingSearch.FillBuckets | openresty/ngx_http_consistent_hash-1.0/ngx_http_upstream_consistent_hash_module.c:209-217 | every bucket i caches the successor of i * 65535 |
| RingSearch.NodePoints | openresty/ngx_http_consistent_hash-1.0/ngx_http_upstream_consistent_hash_module.c:180-203 | a point is on the ring if and only if some unit of some server's weight hashes to it |
| RingSearch.NodesAre | openresty/ngx_http_consistent_hash-1.0/ngx_http_upstream_consistent_hash_module.c:180-203 | a node is made if and only if it has the hash of an address of its own server, for a count within the server's weight, and the first peer with that address |
| RingSearch.RingNodesAre | openresty/ngx_http_consistent_hash-1.0/ngx_http_upstream_consistent_hash_module.c:193-207 | the same for the sorted ring |
| RingSearch.BucketsLeadToOwners | openresty/ngx_http_consistent_hash-1.0/ngx_http_upstream_consistent_hash_module.c:193-213 | every bucket leads to a peer and a server whose address hashes to the bucket's point |
| RingSearch.StablePoint | openresty/ngx_http_consistent_hash-1.0/ngx_http_upstream_consistent_hash_module.c:159-213 | after adding servers anywhere in the list, a bucket whose old point is still there and whose new point is not an added server's keeps its point |
| RingSearch.MinimalDisruption | openresty/ngx_http_consistent_hash-1.0/ngx_http_upstream_consistent_hash_module.c:159-213 | whatever the places of the added servers, a bucket whose point changes lands on an added server, or lost its virtual node because there are fewer points per node |
| RingSearch.AddingServersDisruptsLittle | openresty/ngx_http_consistent_hash-1.0/ngx_http_upstream_consistent_hash_module.c:159-213 | the same for the points per node that the module computes before and after |
| RingSearch.AddingShrinks | openresty/ngx_http_consistent_hash-1.0/ngx_http_upstream_consistent_hash_module.c:160-173 | adding servers anywhere adds up their real nodes and never raises points_per_node |
| RingSearch.PointsPerNodeShrinks | openresty/ngx_http_consistent_hash-1.0/ngx_http_upstream_consistent_hash_module.c:170-173 | more real nodes never mean more points for each |
| PeerSelection.MarkTried | openresty/ngx_http_consistent_hash-1.0/ngx_http_upstream_consistent_hash_module.c:386-410 | setting a bit of the tried bitmap adds exactly that server |
| PeerSelection.PeerData.TryNode | openresty/ngx_http_consistent_hash-1.0/ngx_http_upstream_consistent_hash_module.c:384-415 | a peer is taken if and only if its server is untried and it is up and within its fail budget or past its fail timeout; the server counts as tried afterwards, and tries drops by one exactly when it is newly rejected |
| PeerSelection.PeerData.GetConsistentHashPeer | openresty/ngx_http_consistent_hash-1.0/ngx_http_upstream_consistent_hash_module.c:353-434 | the loop over buckets does what the selection function says to choice, request state and peers |
| PeerRuns.ProbesAreDistinct | openresty/ngx_http_consistent_hash-1.0/ngx_http_upstream_consistent_hash_module.c:379-420 | a call probes pairwise distinct buckets, whatever the point, despite 32-bit wrap-around |
| PeerRuns.ProbesAreBounded | openresty/ngx_http_consistent_hash-1.0/ngx_http_upstream_consistent_hash_module.c:379-420 | a call makes at least one and at most max(1, 20 - tries) probes |
| PeerRuns.ProbeKeeps | openresty/ngx_http_consistent_hash-1.0/ngx_http_upstream_consistent_hash_module.c:379-434 | the chosen peer is untried and eligible, its last-checked time is all that may change, pc->tries drops by the number of servers newly rejected, and each of these was rejected for an ineligible peer |
| PeerRuns.CallMeans | openresty/ngx_http_consistent_hash-1.0/ngx_http_upstream_consistent_hash_module.c:377-434 | all of a call: the i-th bucket is (point + 89 * (tries + ... + (tries + i))) mod 65536, the last one is the first whose server is untried and whose peer may be used, or there is none before the tries are used up; and the new point, tries, tried servers and peers |
| PeerRuns.ProbesIff | openresty/ngx_http_consistent_hash-1.0/ngx_http_upstream_consistent_hash_module.c:368-370 | buckets are probed if and only if there is more than one peer and at most 20 tries are used up |
| PeerRuns.NextCallStarts | openresty/ngx_http_consistent_hash-1.0/ngx_http_upstream_consistent_hash_module.c:430-431 | the next call of a request starts from the bucket that the last one chose, 89 * tries further on |
| PeerRuns.RunsChooseDistinctServers | openresty/ngx_http_consistent_hash-1.0/ngx_http_upstream_consistent_hash_module.c:353-434 | over any run of calls on one request up to the first fallback the chosen servers are pairwise distinct and were eligible when chosen |
| PeerRuns.FreshRequestGetsNearest | openresty/ngx_http_consistent_hash-1.0/ngx_http_upstream_consistent_hash_module.c:379-394 | the first probe of a fresh request is the ring successor of (point mod 65536) * 65535 and the nearest node clockwise; it is chosen if its server is untried and its peer eligible |
| ImportPool.StepKeepsInv | openresty/drizzle7-2011.07.21/client/drizzleimport.cc:317-350 | every step of every thread keeps counter, mutex and table bookkeeping in agreement |
| ImportPool.ReachableInv | openresty/drizzle7-2011.07.21/client/drizzleimport.cc:556-591 | so they agree after every interleaving |
| ImportPool.NeverTooManyWorkers | openresty/drizzle7-2011.07.21/client/drizzleimport.cc:559-577 | live workers never exceed opt_use_threads |
| ImportPool.DoneMeansAllFinished | openresty/drizzle7-2011.07.21/client/drizzleimport.cc:583-591 | when the final wait sees 0 no started worker is running, and every table was served exactly once or its thread could not be created |
| ImportPool.LostWorkerBlocksForever | openresty/drizzle7-2011.07.21/client/drizzleimport.cc:205-217 | once a worker got no connection handle, or was refused and is about to exit, the main thread never gets past its final wait |
| ImportPool.CanFinishIff | openresty/drizzle7-2011.07.21/client/drizzleimport.cc:205-243 | from a reachable state the main thread can still come to its end if and only if the process has not exited and no worker is without a connection |
| ImportPool.StuckStays | openresty/drizzle7-2011.07.21/client/drizzleimport.cc:317-350 | a stuck process stays stuck whatever step comes next |
| ImportPool.CanEndIff | openresty/drizzle7-2011.07.21/client/drizzleimport.cc:205-350 | from a reachable state the process can still end, at its end or by exit, if and only if it is not stuck: a worker got no handle, no new worker can be started, and no other one can be refused or fail to load with errors not ignored |
| ImportPool.ErrorsIgnoredIff | openresty/drizzle7-2011.07.21/client/drizzleimport.cc:213-217 | load errors are ignored exactly if that was asked for and no connection was refused |
| ImportPool.ExitsIff | openresty/drizzle7-2011.07.21/client/drizzleimport.cc:236-243 | a step ends the process exactly if it is that of a refused worker, or of one that fails to load while errors are not ignored |
| AddLine.Client.constructor | openresty/drizzle7-2011.07.21/client/drizzle.cc:2176-2191 | a line comes in with what earlier lines left behind |
| AddLine.Client.Original | openresty/drizzle7-2011.07.21/client/drizzle.cc:2191 | while the cursors are in order every byte from the read cursor on is a byte of the given line |
| AddLine.Client.Put | openresty/drizzle7-2011.07.21/client/drizzle.cc:2412-2415 | writing behind the read cursor leaves what is still to be read alone |
| AddLine.Client.EscapeBranch | openresty/drizzle7-2011.07.21/client/drizzle.cc:2218-2282 | backslash commands, `\N`, and escapes in strings |
| AddLine.Client.CommandBranch | openresty/drizzle7-2011.07.21/client/drizzle.cc:2231-2268 | the command gets the flushed buffer and the text, and its parameters are skipped |
| AddLine.Client.SkipToDelimiter | openresty/drizzle7-2011.07.21/client/drizzle.cc:2257-2261 | parameters end at the first delimiter |
| AddLine.Client.DelimiterBranch | openresty/drizzle7-2011.07.21/client/drizzle.cc:2283-2325 | a statement is complete and sent |
| AddLine.Client.LineCommentBranch | openresty/drizzle7-2011.07.21/client/drizzle.cc:2326-2360 | a comment to the end of the line |
| AddLine.Client.OpenCommentBranch | openresty/drizzle7-2011.07.21/client/drizzle.cc:2361-2377 | a comment opens |
| AddLine.Client.CloseCommentBranch | openresty/drizzle7-2011.07.21/client/drizzle.cc:2378-2396 | a comment closes, and a space is owed, with room for it |
| AddLine.Client.AddByteBranch | openresty/drizzle7-2011.07.21/client/drizzle.cc:2397-2417 | strings and server comments are tracked and the byte is kept, after the space that is owed |
| AddLine.Client.MultiByteBranch | openresty/drizzle7-2011.07.21/client/drizzle.cc:2201-2217 | a whole multi-byte character is kept or dropped |
| AddLine.Client.TakeTurn | openresty/drizzle7-2011.07.21/client/drizzle.cc:2191-2418 | in every branch the write cursor stays at or behind the read cursor, strictly behind while a space is owed, and the turn is the one on an unchanged line |
| AddLine.Client.Add | openresty/drizzle7-2011.07.21/client/drizzle.cc:2176-2433 | editing the line in place gives the same commands, statements, buffer and lexer state as reading an unchanging line with a separate output |
| AddLine.Client.FinishLine | openresty/drizzle7-2011.07.21/client/drizzle.cc:2419-2432 | what is left of the line goes into the buffer with a newline, unless the statement is too long; nothing does inside a dropped comment |
| StatementLaws.DelimiterSends | openresty/drizzle7-2011.07.21/client/drizzle.cc:2283-2325 | outside strings and comments a delimiter sends the statement so far, with white space and a comment behind it if comments are kept; a new statement begins behind it |
| StatementLaws.OrdinaryByteIsKept | openresty/drizzle7-2011.07.21/client/drizzle.cc:2397-2417 | an ordinary byte is kept behind the space that is owed, quotes begin and end strings, white space before a statement is passed over |
| StatementLaws.CharacterIsKept | openresty/drizzle7-2011.07.21/client/drizzle.cc:2201-2217 | a character of two, three or four bytes is kept, or dropped in a comment that is not kept |
| StatementLaws.LineCommentIsDropped | openresty/drizzle7-2011.07.21/client/drizzle.cc:2326-2360 | a comment to the end of the line that is not kept leaves what stood before it |
| StatementLaws.LineCommentIsKept | openresty/drizzle7-2011.07.21/client/drizzle.cc:2341-2357 | one that is kept goes to the server with the statement it follows, and alone waits for the next line |
| StatementLaws.LineEnds | openresty/drizzle7-2011.07.21/client/drizzle.cc:2419-2432 | what is left at the end of a line: the statement so far and a newline, unless it is too long |
| StatementLaws.BackslashIsKept | openresty/drizzle7-2011.07.21/client/drizzle.cc:2218-2281 | a backslash at the end of the line is dropped; `\N` and letters that are no command are kept, the latter with a message |
| StatementLaws.CommandMeans | openresty/drizzle7-2011.07.21/client/drizzle.cc:2231-2268 | a command gets the rest of the line and the statement so far, and its parameters are passed over: up to the first delimiter and with it, or to the first end of a comment |
| StatementLaws.KeptCommentOpens | openresty/drizzle7-2011.07.21/client/drizzle.cc:2361-2377 | a kept comment's opening goes into the statement |
| StatementLaws.KeptCommentStays | openresty/drizzle7-2011.07.21/client/drizzle.cc:2378-2417 | and so does its text, as it is, up to its end as the client sees it |
| StatementLaws.PlainTextIsKept | openresty/drizzle7-2011.07.21/client/drizzle.cc:2397-2417 | text without special characters goes into the statement as it is |
| StatementLaws.PlainStatementIsSent | openresty/drizzle7-2011.07.21/client/drizzle.cc:2191-2432 | a line of plain text and a delimiter sends just that text, behind what earlier lines left |
| LineLexer.KeptIsCopied | openresty/drizzle7-2011.07.21/client/drizzle.cc:2209-2210 | the copying loop appends exactly the next bytes of the line |
| LexerLaws.TurnsKeepSane | openresty/drizzle7-2011.07.21/client/drizzle.cc:2191-2418 | a turn keeps it so that an open string has begun in the statement, outside comments, with no space owed |
| LexerLaws.LinesKeepSane | openresty/drizzle7-2011.07.21/client/drizzle.cc:2419-2432 | and so does the end of a line |
| LexerLaws.EveryStateIsSane | openresty/drizzle7-2011.07.21/client/drizzle.cc:2176-2433 | so it holds in every state of every line, after any lines before it |
| LexerLaws.QuotedTextIsKept | openresty/drizzle7-2011.07.21/client/drizzle.cc:2201-2230 | inside quotes everything up to the closing quote, characters of any length and escapes included, goes into the statement as it is |
| LineLexer.CommentSentIffBegun | openresty/drizzle7-2011.07.21/client/drizzle.cc:2341-2356 | a kept comment to the end of the line is sent at once if and only if a statement had begun before it |
| LexerLaws.CommentIsSkipped | openresty/drizzle7-2011.07.21/client/drizzle.cc:2201-2417 | the text of a comment that is not kept, any bytes, changes nothing up to the comment's end as the client sees it, or to the end of the line |
| LexerLaws.CommentIsASpace | openresty/drizzle7-2011.07.21/client/drizzle.cc:2361-2396 | a whole such comment ends what was accepted and leaves behind nothing but an owed space |
| LexerLaws.OwedSpaceIsPaidIff | openresty/drizzle7-2011.07.21/client/drizzle.cc:2201-2282 | a turn that adds to the statement pays the owed space first, or adds white space itself, if and only if it is neither at a character of several bytes nor at a backslash |
| LexerLaws.CommentSeparatesIff | openresty/drizzle7-2011.07.21/client/drizzle.cc:2201-2417 | so a dropped comment separates what follows it on the line from what stands before it exactly in that case |
| LexerLaws.SpaceMisplaced | openresty/drizzle7-2011.07.21/client/drizzle.cc:2201-2217 | the failing input: after a comment an accented letter is joined to what stood before, and the space comes behind it |
| LexerLaws.FirstEndIsTakenIff | openresty/drizzle7-2011.07.21/client/drizzle.cc:2361-2404 | in UTF-8 text a comment ends at its first end mark if and only if no server-side comment opens before it and its text does not end in a slash |
| LexerLaws.FirstEndPassedOver | openresty/drizzle7-2011.07.21/client/drizzle.cc:2361-2404 | two comments whose first end mark is passed over |
| InsertBatcher.RowSizes | openresty/drizzle7-2011.07.21/client/drizzledump_data.cc:297-299 | the sum of the field sizes |
| InsertBatcher.WriteRow | openresty/drizzle7-2011.07.21/client/drizzledump_data.cc:327-386 | the tokens of one row read as its cells in order, and the counter grows by their cost |
| InsertBatcher.BeginRow | openresty/drizzle7-2011.07.21/client/drizzledump_data.cc:301-326 | a row is separated from the one before it or begins a statement |
| InsertBatcher.EndRow | openresty/drizzle7-2011.07.21/client/drizzledump_data.cc:387-394 | a statement is closed exactly when it is full |
| InsertBatcher.WriteRows | openresty/drizzle7-2011.07.21/client/drizzledump_data.cc:289-397 | what is written reads as closed, non-empty statements that hold exactly the input rows in order; each but the last was full, and none was full before its last row |
| InsertBatcher.NoRowJoinsFull | openresty/drizzle7-2011.07.21/client/drizzledump_data.cc:387-394 | no row joins a statement whose counter had reached the limit |
| InsertBatcher.OneRowEach | openresty/drizzle7-2011.07.21/client/drizzledump_data.cc:387-394 | without extended inserts every statement has one row |
| InsertBatcher.GroupingIsUnique | openresty/drizzle7-2011.07.21/client/drizzledump_data.cc:387-394 | there is only one such grouping of the rows |
| DumpText.ConvertHex | openresty/drizzle7-2011.07.21/client/drizzledump_data.cc:410-427 | the loop gives 0x and two digits a byte, or two quotes for no bytes |
| DumpText.HexRoundTrip | openresty/drizzle7-2011.07.21/client/drizzledump_data.cc:418-424 | the digits read as the bytes they were made of |
| DumpText.Escape | openresty/drizzle7-2011.07.21/client/drizzledump_data.cc:430-473 | the loop spells each byte by itself, seven of them with a backslash |
| DumpText.QuotedRoundTrip | openresty/drizzle7-2011.07.21/client/drizzledump_data.cc:378 | a quoted value reads as the bytes it was made of, whatever they are and whatever follows |
| DumpText.ReaderIsFaithful | openresty/drizzle7-2011.07.21/client/drizzledump_data.cc:301-394 | only one output reads as given statements, so what is written is settled by what it reads as |
| DumpText.CellLength | openresty/drizzle7-2011.07.21/client/drizzledump_data.cc:331-385 | a value and a comma are as long as the counter says, but for 5 bytes a NULL, one a number and one an escape |
| DumpText.StatementLength | openresty/drizzle7-2011.07.21/client/drizzledump_data.cc:288-394 | so a statement's length is the counter, those bytes, and a constant for its head, less one a row |

## Left out

- ControlFlow.Interpreter.Run: at most `fuel` turns, for every `fuel`, because the main loop need not end; `Structured.FlatMeansStructured` says when it does.
- Structured.FlatMeansStructured: well-nested files only; files with one `end` too many or too few are the subject of `Structured.StrayEndDies` and `Structured.MissingEndDies`.
- drizzletest: commands and expressions are functions of the trace so far; `source`, disabled parsing, connections, replacement and multi-byte pushback in `read_line` are not modelled, nor is the syntax of a command line.
- LikeRange.MyLikeRangeMb: single-byte characters without contractions and a non-Unicode character set.
- LikeRange.RangeIsSound: for strings without bytes below the character set's smallest sort byte, which itself is at most a space.
- The multi-byte LIKE matchers discard the pointers they advance and do not compute LIKE.
- PadSpace.HashSort8bitBin: the byte past an empty key is a parameter.
- Calendar.JulianDayNumber: years up to 2^32 - 4801, so that no 32-bit sum wraps; year 0 and Julian years are not modelled.
- StructPack.EncodeArgument: floats are bytes that the machine converts both ways; a number argument is an integer and no string stands for a number.
- StructPack.BPack: `long` and `size_t` have 8 bytes, `int` 4, and the numbers in a format do not overflow `int`.
- StructRoundTrip.RoundTrip: integers in the range of their field, `s` arguments without a zero byte, and for `c0` the length packed just before it.
- StructInt.GetInteger: the number is the exact 64-bit one; Lua's conversion to a double, which rounds numbers beyond 2^53 (-1 read from eight unsigned bytes becomes 2^64), is not modelled.
- HashRing.FillContinuum: the hash of an address and a count is a parameter; without real nodes the source divides by zero, with more than 65536 it overruns its array.
- RingSearch.MinimalDisruption: sorting is any permutation that is ordered by point.
- PeerSelection.PeerData.GetConsistentHashPeer: the round-robin fallback is an outcome of the call; the mutex, which the source leaves out too, and what other requests do to the peers enter a run as the peers of each call.
- ImportPool.CanEndIff: the process can end, under some schedule; nothing is claimed about fairness or time, and exit ends all threads at once. The exit code is not modelled.
- ImportPool.NeverTooManyWorkers: a worker counts as gone once it has unlocked the mutex, although its thread still has to return.
- AddLine.Client.Add: history, printing and what commands do are parameters; multi-byte characters do not run past the line's end and the delimiter is not empty.
- InsertBatcher.WriteRows: rows are as wide as the table, and the counter does not wrap; a BIGINT that is too large is not dropped.
- DumpText.CellLength: BOOLEAN and converted date values, and the NULL written for an empty ENUM, are not spelled out.
