# KoGAI in Dafny

A model of the algorithmic parts of KoGAI, a Teeworlds client with a computer player, and proofs
about them. Each part takes the form of its source: code that updates objects and buffers in loops
is modelled by classes, arrays and methods with loops, which are proved against functions and
predicates, and what the program is for is then proved about those.

| part | files | main result |
|---|---|---|
| direction field of the computer player | `FlowField.dfy`, `Grids.dfy` | the search computes least distances to the finish over all legal paths, and the field leads along such a path |
| asynchronous writer | `AsyncRing.dfy`, `AsyncWriter.dfy` | no interleaving of callers and worker loses, repeats or reorders a byte, loses a wake-up, or frees the structure twice |
| SHA-256 | `Sha256Spec.dfy`, `Sha256Constants.dfy`, `Sha256Example.dfy`, `Sha256.dfy` | streaming in any pieces gives the digest of FIPS 180-4 |
| edit distance | `EditDistance.dfy` | two rolling rows give the length of the shortest chain of single edits |
| UTF-8 | `Utf8.dfy`, `Utf8Truncate.dfy` | decoding and encoding are inverse; cut strings keep the longest beginning of whole code points |
| base64 | `Base64.dfy` | decoding undoes encoding, and exactly the encodings are accepted |
| line of sight | `LineTile.dfy` | the walk visits the tiles of a segment in order and misses none |
| boxes in the map | `BoxCollision.dfy` | four corners speak for a whole box up to one tile in size; moving keeps a box out of solid tiles |
| pixel art | `PixelArt.dfy` | merging pixels into larger quads leaves the picture as it is |
| characters | `CharacterRuns.dfy`, `HookLinks.dfy`, `WorldRuns.dfy`, `CharacterCore.dfy` | what no run of ticks can do with hooks and jumps; attached sets are the inverse of the hooked relation |
| confusable names | `ConfusablesData.dfy`, `Confusables.dfy` | the packed tables answer like the dictionary; comparing in lock step is comparing whole skeletons |

`Arith.dfy` and `Bytes.dfy` hold what several parts share. `dafny verify dfyconfig.toml` checks
everything. `float` is modelled by exact real numbers, and `int` by unbounded integers except where
a width is named. Buffers that the program reads through a pointer are sequences where they are only
read and arrays where they are written.

## Model

| member | source | states |
|---|---|---|
| FlowFields.FlowField.SetupField | src/engine/client/ai.cpp:204-270 | When the work list is empty, every tile's distance is the least cost of a legal path from it to a finish (infinite exactly if there is none), and the field leads every reached tile one step down. The states run through are handed back: they begin with each finish waiting once at distance 0, each comes from the one before by expanding its first entry, and the last one has the results and an empty list. The entries taken come in ascending order, at most 8·w·h plus the number of finish tiles of them. By tile numbers: tiles 1, 3 and 9 are never reached and lead nowhere, finishes (34) have distance 0, every open way to a neighbour is taken into account, on a diagonal only if neither tile beside it is 1, 3 or 9, and the field leads along such a way. |
| FlowFields.FlowField.Clear | src/engine/client/ai.cpp:220-233 | The state before the search: all distances infinite except 0 at the finish tiles, all directions empty, and one entry per finish tile; the invariant holds with no tile expanded. |
| FlowFields.FlowField.Search | src/engine/client/ai.cpp:235-267 | From any state with the invariant the loop ends with an empty list and every expanded tile's neighbours relaxed, through states each of which is the expansion of the one before; the entries taken are in ascending order and bounded in number. |
| FlowFields.FlowField.Expand | src/engine/client/ai.cpp:236-266 | One entry, and its whole effect: exactly the neighbours reached more cheaply over it get their new distance, their direction and one new entry, nothing else changes, and the entry is gone. It keeps the invariant and adds at most eight entries, none cheaper than itself; a stale entry changes nothing. |
| FlowFields.FlowField.Probe | src/engine/client/ai.cpp:240-257 | A neighbour passes the tests of the loop exactly if it may legally step to the current tile (in the map, not solid, no corner cut), and gets that step's cost. |
| FlowFields.FlowField.Visit | src/engine/client/ai.cpp:240-264 | One neighbour, and its whole effect: if it is reached more cheaply its distance, direction and entry, and otherwise nothing; it keeps the invariant, and from a stale entry it changes nothing. |
| FlowFields.SpreadVisit | src/engine/client/ai.cpp:238-265 | Visiting the neighbours one after the other has the effect of finding all that are reached more cheaply at once: no visit decides about a later one. |
| FlowFields.SearchOn | src/engine/client/ai.cpp:235-267 | Expanding the first entry carries a search on: what is taken next is never cheaper than anything taken before. |
| FlowFields.NoPathIsCheaper | src/engine/client/ai.cpp:235-267 | After the search no legal path of any length from a tile to a finish costs less than the tile's distance. |
| FlowFields.Optimal | src/engine/client/ai.cpp:209-267 | After the search each distance is attained by a legal path and not undercut, and is infinite if no path exists. |
| FlowFields.NotStale | src/engine/client/ai.cpp:260-264 | A neighbour can be improved only from an entry whose tile is expanded for the first time, and only if it was never expanded itself. |
| FlowFields.Descent | src/engine/client/ai.cpp:272-285 | The decoded direction is a legal step to a tile whose distance is smaller by exactly the step's cost; it is (0,0) outside the map, on a finish and where no finish can be reached. |
| FlowFields.DescentByNumbers | src/engine/client/ai.cpp:174-178 | Likewise by tile numbers: the direction leads along an open way, so never into a tile 1, 3 or 9 nor between them, to a tile whose distance is less by 1 or by the diagonal cost. |
| FlowFields.ByNumbersHolds | src/engine/client/ai.cpp:174-285 | What the search leaves for each tile follows in terms of the numbers in the map alone. |
| FlowFields.WalkReachesFinish | src/engine/client/ai.cpp:272-285 | Following the field from any reached tile ends on a finish along a legal path whose cost is the tile's distance. |
| FlowFields.PackNext | src/engine/client/ai.cpp:263-283 | The packed value written for a neighbour leads back to the tile it was reached from; only offset (0,0) packs to 4. |
| AsyncRing.AsyncIo.BufferPtrs | src/base/system.cpp:429-444 | The two pieces are the contents of the ring in order. |
| AsyncRing.AsyncIo.BufferLen | src/base/system.cpp:561-571 | The number of bytes in the ring, always less than its size. |
| AsyncRing.AsyncIo.NextBufferSize | src/base/system.cpp:573-580 | The size doubled until it holds what is needed, and less than twice that if it had to grow. |
| AsyncRing.AsyncIo.WriteUnlocked | src/base/system.cpp:593-641 | Appends the data behind the contents, around the end or in new memory, doubled until a byte stays free and no further. |
| AsyncRing.AsyncIo.CopyIn | src/base/system.cpp:599-610 | The data stands behind the contents, around the end if need be, and no other byte has changed. |
| AsyncRing.AsyncIo.Drain | src/base/system.cpp:491-510 | Takes the first bytes, as many as the local buffer holds, and leaves exactly the rest. |
| AsyncRing.PutContents | src/base/system.cpp:596-611 | Bytes put behind the write position around the end are appended to the contents. |
| AsyncWriter.BytesInOrder | src/base/system.cpp:462-520 | In every reachable state the file, the worker's local buffer and the ring, in this order, are the concatenation of all writes in lock order. |
| AsyncWriter.NoLostWakeUp | src/base/system.cpp:474-489 | Whenever the worker is blocked on a zero semaphore, the ring is well formed, and if bytes wait or an end was requested a caller still owes its signal. |
| AsyncWriter.MutualExclusion | src/base/system.cpp:582-591 | Never two holders of the lock. |
| AsyncWriter.FreedOnce | src/base/system.cpp:446-460 | The structure is freed at most once, after the worker has ended and the owner let go, and then nobody can take another step on it. |
| AsyncWriter.NotLeaked | src/base/system.cpp:446-460 | Once the worker has ended and the owner has freed its handle, the structure has been freed. |
| AsyncWriter.EndsWithAllWritten | src/base/system.cpp:474-484 | The worker leaves only when the file holds everything written. |
| AsyncWriter.ClosedIffAsked | src/base/system.cpp:474-484 | In every run, once the worker has let go, the file has been closed exactly once if a caller closed the handle before that, whatever was called later, and not at all if none did. |
| AsyncWriter.RequestKept | src/base/system.cpp:683-706 | While the worker has not let go the request says what the callers did: close if any closed, and otherwise end if any waited. |
| AsyncWriter.EndsOnlyWhenAsked | src/base/system.cpp:474-484 | The worker lets go only after a caller closed or waited. |
| AsyncWriter.WrittenBefore | src/base/system.cpp:462-520 | Whatever was written while the worker had not let go is in the file once it has. |
| AsyncWriter.WaitsForAll | src/base/system.cpp:692-706 | A caller comes back from its wait only when the worker has ended, and then the file has all that was written while the worker had not let go. |
| AsyncWriter.SignalsCounted | src/base/system.cpp:485-489 | In every run the semaphore is the number of signals sent less the number of times the worker woke up. |
| AsyncWriter.NoDeadlock | src/base/system.cpp:582-706 | As long as any caller is in an operation, some thread can go on without another call. |
| AsyncWriter.AllCallsReturn | src/base/system.cpp:462-706 | When no more calls are made, the threads go on for a bounded number of steps only, in whatever order; then every call has returned, and the worker has ended if it was asked to, and otherwise sleeps with everything in the file. |
| AsyncWriter.MayBegin | src/base/system.cpp:643-706 | Until the handle is given up, an idle caller can always write, look for an error or close, and it can wait exactly if nobody has waited or is about to; the handle can be given up when no call is under way. |
| AsyncWriter.JoinableUntilWait | src/base/system.cpp:692-706 | Until the handle is given up, the worker can be joined exactly as long as nobody has waited for it. |
| AsyncWriter.WorkerProgress | src/base/system.cpp:462-520 | Left alone, every step of the worker reduces a measure. |
| AsyncWriter.WorkerFlushes | src/base/system.cpp:462-520 | Left alone, the worker stops within a given number of steps, with everything in the file, and ended if an end was requested. |
| AsyncWriter.WorkerCanStep | src/base/system.cpp:462-520 | Without callers in the way a worker that neither sleeps nor has ended can go on: no deadlock. |
| AsyncWriter.StepKeeps | src/base/system.cpp:582-706 | Every step of every caller (write, close, wait, free, error) and of the worker keeps the whole invariant. |
| Sha256.ChAgrees | src/base/hash_libtomcrypt.cpp:55 | The rewritten Ch is that of section 4.1.2 of FIPS 180-4. |
| Sha256.MajAgrees | src/base/hash_libtomcrypt.cpp:56 | The rewritten Maj is that of section 4.1.2 of FIPS 180-4. |
| Sha256.Sigma0Agrees | src/base/hash_libtomcrypt.cpp:57-59 | The shifted halves make the rotations of the standard. |
| Sha256.Sigma1Agrees | src/base/hash_libtomcrypt.cpp:57-60 | Likewise for the other rotations of the rounds. |
| Sha256.Gamma0Agrees | src/base/hash_libtomcrypt.cpp:57-61 | Likewise for the first shift of the message schedule. |
| Sha256.Gamma1Agrees | src/base/hash_libtomcrypt.cpp:57-62 | Likewise for the rotations and the shift of the message schedule. |
| Sha256.Context.Compress | src/base/hash_libtomcrypt.cpp:64-108 | The rounds over rotated registers are the compression of section 6.2.2 of FIPS 180-4. |
| Sha256.Context.RunRounds | src/base/hash_libtomcrypt.cpp:70-103 | 64 rounds that rotate the registers and update two of them give the registers of 64 rounds of the standard. |
| Sha256.Context.Process | src/base/hash_libtomcrypt.cpp:126-156 | Absorbing data extends the message that the context stands for by exactly that data, whatever is buffered. |
| Sha256.Context.Update | src/base/hash_libtomcrypt.cpp:196-199 | Absorbs the data, of which only the low 32 bits of the length count; for less than 2^61 bytes the context then stands for the whole data exactly if they are fewer than 2^32. |
| Sha256.TooLong | src/base/hash_libtomcrypt.cpp:196-199 | Whatever stands for a message with the lost bytes missing does not stand for the message with them, by its count of bits. |
| Sha256.Context.Done | src/base/hash_libtomcrypt.cpp:158-189 | One or two last blocks make the output the digest of the whole message. |
| Sha256.DigestOfUpdates | src/base/hash_libtomcrypt.cpp:112-206 | For every message and every way of splitting it into updates of less than 2^32 bytes the result is the digest of the message. |
| Sha256Constants.DigestWord | src/base/hash_libtomcrypt.cpp:186-188 | Bytes 4i to 4i+3 of the digest, read most significant first, are the value of word i of the hash. |
| Sha256Constants.WordBytesValue | src/base/hash_libtomcrypt.cpp:48-53 | The bytes of a word are its value, most significant first. |
| Sha256Constants.WordAtValue | src/base/hash_libtomcrypt.cpp:36-39 | The word read from four bytes has their value, most significant first. |
| Sha256Constants.ConstantsAreCubeRoots | src/base/hash_libtomcrypt.cpp:15-29 | The 64 constants are the first 32 bits of the fractions of the cube roots of the first 64 primes (section 4.2.2 of FIPS 180-4). |
| Sha256Constants.InitialIsSquareRoots | src/base/hash_libtomcrypt.cpp:112-124 | The first hash is the first 32 bits of the fractions of the square roots of the first eight primes (section 5.3.3). |
| Sha256Constants.FirstPrimes | src/base/hash_libtomcrypt.cpp:15-29 | The primes meant are prime, and none is left out. |
| Sha256Example.DigestOfEmpty | src/test/hash.cpp:17 | The digest of the empty message is the one that the test has. |
| Sha256.FinishOneBlock | src/base/hash_libtomcrypt.cpp:160-182 | The last block built from a short rest completes the folding of the padded message. |
| Sha256.FinishTwoBlocks | src/base/hash_libtomcrypt.cpp:160-182 | So do the two blocks built from a long rest. |
| Sha256Spec.ZeroCountIsLeast | src/base/hash_libtomcrypt.cpp:158-182 | The zeros between the end mark and the length are the fewest that fill a block, as section 5.1.1 of FIPS 180-4 asks. |
| Sha256Spec.PadIs | src/base/hash_libtomcrypt.cpp:158-182 | Behind the message stand one byte 0x80, only zeros, and 8 bytes, up to whole blocks. |
| Sha256Spec.PadEndsWithLength | src/base/hash_libtomcrypt.cpp:158-182 | The padded message begins with the message and ends with its length in bits, for messages shorter than 2^64 bits. |
| EditDistance.DistBuffer | src/base/system.cpp:2933-2967 | The rolling computation in one buffer, with the arguments swapped when the first is longer, returns the edit distance. |
| EditDistance.DistIsLeast | src/base/system.cpp:2933-2967 | The edit distance is the least number of single insertions, deletions and replacements that lead from one to the other. |
| EditDistance.ShortestChain | src/base/system.cpp:2933-2967 | Builds a chain of as many single edits as the distance says. |
| EditDistance.NoChainIsShorter | src/base/system.cpp:2933-2967 | No chain of single edits between two texts is shorter than their distance. |
| EditDistance.LengthBounds | src/base/system.cpp:2933-2967 | The distance lies between the difference and the sum of the lengths. |
| EditDistance.Symmetric | src/base/system.cpp:2937-2945 | Swapping the arguments does not change the distance. |
| EditDistance.Triangle | src/base/system.cpp:2933-2967 | The distance obeys the triangle inequality. |
| EditDistance.ZeroIffEqual | src/base/system.cpp:2933-2967 | It is 0 exactly for equal texts. |
| EditDistance.NextCell | src/base/system.cpp:2954-2962 | The cell computed from its three neighbours is the distance of the prefixes. |
| Utf8.Encode | src/base/system.cpp:3569-3600 | Writes the encoding of the code point, nothing beyond the last one, and changes nothing else. |
| Utf8.Decode | src/base/system.cpp:3614-3679 | The loop over a window of bytes returns what the decoding function does, reads none behind the terminator and advances by at least one byte. |
| Utf8.EncodingBits | src/base/system.cpp:3569-3600 | The length of an encoding follows from the size of the code point, and its bytes hold the bits of the code point as section 3 of RFC 3629 says. |
| Utf8.ErrorSkips | src/base/system.cpp:3614-3679 | On an error the decoder skips the longest beginning that an encoding of some scalar value has there, or one byte if there is none. |
| Utf8.DecodesEncoding | src/base/system.cpp:3569-3679 | Where the encoding of a scalar value stands, the decoder returns that value and consumes exactly its bytes. |
| Utf8.EncodesDecoding | src/base/system.cpp:3614-3679 | What is returned without error is a scalar value whose encoding was consumed (section 4 of RFC 3629). |
| Utf8.FailsExactly | src/base/system.cpp:3614-3679 | The decoder fails exactly where no encoding of a scalar value stands. |
| Utf8.SurrogatesFail | src/base/system.cpp:3569-3679 | The encoder writes surrogates, and the decoder refuses them. |
| Utf8.DecodesScalarsOnly | src/base/system.cpp:3569-3679 | Of all code points up to the last one, what the encoder writes comes back exactly for the scalar values, and is an error for the others. |
| Utf8.ZeroAtEndOnly | src/base/system.cpp:3614-3679 | In a string without byte 0 the decoder returns 0 exactly at the terminator. |
| Utf8Truncate.NoZeros | src/base/system.cpp:2578-2617 | The bytes of a text have no terminator among them, so every text is a string that these functions take. |
| Utf8Truncate.FitIsLongest | src/base/system.cpp:2595-2600 | The number of code points that fit is maximal: a beginning of the text fits exactly up to that number. |
| Utf8Truncate.FixedPrefix | src/base/system.cpp:3531-3557 | A text cut after any byte is cut back to the longest beginning of whole code points. |
| Utf8Truncate.FixTruncation | src/base/system.cpp:3542-3557 | Repairs the end in place and returns the new length. |
| Utf8Truncate.StrCopy | src/base/system.cpp:2595-2600 | Copies what fits, repairs the end, leaves a terminated string and nothing changed behind the buffer; of a valid text it keeps the longest beginning of whole code points that fits. |
| Utf8Truncate.StrAppend | src/base/system.cpp:2578-2593 | The result is what copying both strings in one would keep: of two valid texts the longest beginning of both in one, so all of the first and what there is room for of the second. |
| Utf8Truncate.AppendBytes | src/base/system.cpp:2578-2591 | Before the end is repaired the memory holds both strings in one, cut to the buffer after any byte. |
| Utf8Truncate.AppendedText | src/base/system.cpp:2578-2593 | Appending a text to a text that fits keeps the first and the longest beginning of whole code points of the second for which there is room. |
| Utf8Truncate.KeptOfText | src/base/system.cpp:2578-2600 | Of a valid text copying and appending keep the longest beginning of whole code points that fits. |
| Utf8Truncate.Truncate | src/base/system.cpp:2602-2617 | For any string, valid or not: copies up to the last place, counted in decoded code points and errors, that both limits allow. For a valid text that is the longest beginning within both the byte and the code point limit. Memory behind the buffer stays. |
| Utf8Truncate.CutIs | src/base/system.cpp:2602-2617 | The kept count is the only one within both limits that cannot be raised. |
| Utf8Truncate.CutOfText | src/base/system.cpp:2602-2617 | On a valid text the place where the loop stops is the end of the most code points that both limits allow. |
| Base64.EncodedDecodes | src/base/system.cpp:3118-3262 | Decoding the encoding of any bytes returns them. |
| Base64.DecodedEncodes | src/base/system.cpp:3195-3262 | Whatever is accepted is the encoding of what it decodes to (sections 3.5 and 4 of RFC 4648). |
| Base64.AcceptsExactly | src/base/system.cpp:3195-3262 | A string is accepted exactly if it is the encoding of some bytes. |
| Base64.DigitsAreInverse | src/base/system.cpp:3170-3193 | The digits and their values are inverse to each other. |
| Base64.DigitsAreTheAlphabet | src/base/system.cpp:3120-3193 | The digits are the letters, figures and signs of table 1 of RFC 4648, in its order, and nothing else is one. |
| Base64.GroupValue | src/base/system.cpp:3118-3168 | The digits of a group are its bytes read as one number, base 64 for base 256, with zero bits behind and padding. |
| Base64.RefusedExactly | src/base/system.cpp:3212-3259 | A group is refused with -1 exactly for characters that are no digits, padding at the end of the last group aside, and with -2 exactly for others that encode nothing. |
| Base64.EncodedAt | src/base/system.cpp:3118-3168 | Characters 4g to 4g+3 encode bytes 3g to 3g+2. |
| Base64.Encode | src/base/system.cpp:3118-3168 | The loop over a 32-bit value writes the encoding, cut to the buffer, and a terminator. |
| Base64.Decode | src/base/system.cpp:3195-3262 | Returns the length and writes the decoded bytes, or the error code: -3 for a wrong length, -2 for a small buffer, otherwise that of the first bad group. |
| Base64.DecodeQuad | src/base/system.cpp:3212-3259 | One group of four: its bytes, or the code of its first error. |
| LineTile.IntersectLineTile | src/game/collision.cpp:1374-1401 | The loop ends for every start. From a start that is not negative or on a grid line on both axes, and from one left of the map on a grid line: no hit means that no fraction of the segment lies in a matching tile; a hit has no earlier matching fraction and its point lies in a matching closed tile. From any other start the same holds of the tiles one to the right or below, for segments on which no crossing puts the error right; and of the part behind the first crossing, for segments that meet the lines of the second axis only at corners. |
| LineTile.FoundInPixels | src/game/collision.cpp:1361-1401 | What such an answer means in pixels: no 32 by 32 square of a tile with the number sought is passed before the hit, or at all without one, and the point of the hit lies in such a square; outside of the map all tiles have number 0. |
| LineTile.GetPntIsn | src/game/collision.cpp:1331-1359 | Finds the first grid line that the rest of the segment crosses and the tile behind it, or that there is none; of two lines met at once the one of the first axis. |
| LineTile.StretchIsInCell | src/game/collision.cpp:1386-1398 | Every fraction up to the next crossing lies in the tile just tested. |
| LineTile.Cross | src/game/collision.cpp:1331-1397 | Crossing a line keeps the walk's invariant and leaves fewer lines to cross. |
| LineTile.ReachIsLine | src/game/collision.cpp:1340-1348 | The fraction computed for an axis is where the segment meets the next grid line. |
| LineTile.TruncIsFloor | src/game/collision.cpp:1381-1384 | Truncation finds the tile of the start exactly for coordinates that are not negative or lie on a grid line. |
| LineTile.NegativeStartFails | src/game/collision.cpp:1374-1401 | Run from a point left of the map, the walk reports a hit at fraction 0 in a tile that does not touch the point. |
| LineTile.BadStartFails | src/game/collision.cpp:1374-1401 | For every start that is negative and not on a grid line on one axis, and not negative on the other or within one tile of the map on both, there are a map and a segment for which no answer the walk may give is right. |
| LineTile.CornerStartFails | src/game/collision.cpp:1331-1401 | Likewise for every start left of the map, off the grid lines and at most one tile above it: a segment through the corner of the map keeps the error into the map, because of two lines met at once the first axis is crossed. |
| LineTile.StaysGood | src/game/collision.cpp:1351-1356 | From a start left of the map on a grid line the tested tile is the right one, or both lie left of the map. |
| LineTile.CrossesX | src/game/collision.cpp:1340-1348 | Where lines of the second axis are met only at corners, none of them is ever crossed on its own. |
| LineTile.QuotientOfLengths | src/game/collision.cpp:1388-1392 | The quotient of lengths that is returned is the fraction of the segment. |
| BoxCollision.TestBoxIsExact | src/game/collision.cpp:464-476 | For boxes of up to 32 units the four-corner test holds exactly if some point of the whole box maps to a solid tile, with rounding, truncating division and clamping as in the program. |
| BoxCollision.CheckPointByNumbers | src/game/collision.cpp:277-289 | A point is solid exactly if the tile of its column and row has number 1 or 3; a column begins half a unit before a multiple of 32, and the first and the last go on outside the map. |
| BoxCollision.ColumnIs | src/game/collision.cpp:277-289 | Rounding, truncating division and clamping give that column. |
| BoxCollision.WiderBoxesAreMissed | src/game/collision.cpp:464-476 | For every width above 32 and any height there are a map and a place where the test misses a solid tile. |
| BoxCollision.HigherBoxesAreMissed | src/game/collision.cpp:464-476 | Likewise for every height above 32 and any width. |
| BoxCollision.ExactUpTo32 | src/game/collision.cpp:464-476 | The test is right on all maps and at all places exactly for boxes of at most 32 by 32. |
| BoxCollision.SolidPointMeansSolidCorner | src/game/collision.cpp:277-289 | A solid point anywhere in the box makes a corner solid. |
| BoxCollision.ColumnGap | src/game/collision.cpp:277-282 | Coordinates at most 32 apart are at most one tile apart, across zero too. |
| BoxCollision.MoveBox | src/game/collision.cpp:478-544 | Started free, it never ends in a solid tile, for every map and elasticity; with elasticity in [0,1] no axis gains speed or moves further than its speed; on a free way it arrives with its velocity kept; without elasticity it runs along floors, ceilings and walls, arriving with the speed it has along them; in all cases it ends where all its steps, one after the other, lead, so that the early exits are shortcuts only; what is slower than the threshold does not move. |
| BoxCollision.WholeLengthIs | src/game/collision.cpp:484-485 | There is exactly one step count for each velocity: the greatest whole number not above its length. |
| BoxCollision.MoveStep | src/game/collision.cpp:500-537 | One step, by the box tests alone: an axis stays and reflects exactly if the step is blocked and its own part is blocked too, or neither part is; otherwise it advances with its speed kept. |
| BoxCollision.RunStep | src/game/collision.cpp:500-537 | Along a floor, ceiling or wall each step goes on with the speed along it, after the first has lost the other speed. |
| BoxCollision.MoveOften | src/game/collision.cpp:478-544 | Any sequence of moves keeps a box of up to 32 units out of every solid point. |
| BoxCollision.StepMoves | src/game/collision.cpp:502-507 | In exact arithmetic a step of a moving box always changes its position, so the early exit for unchanged positions is never taken. |
| PixelArt.InsertPixelArtQuads | src/tools/map_create_pixelart.cpp:106-138 | Optimised or not, the added quads paint at every point of the plane the sample of the point's cell, and nothing outside the image and where it is transparent; no point is in two of them; existing quads stay. There are at most as many as visible samples, just as many without merging, and at most w·h/p. |
| PixelArt.SamePicture | src/tools/map_create_pixelart.cpp:106-138 | Over any quads that were there before, two outputs for one image give the same picture at every point: the image, and where it is transparent what was there before. |
| PixelArt.PictureByBytes | src/tools/map_create_pixelart.cpp:106-229 | In terms of the bytes of the image: at each point the quads paint the bytes of the pixel that starts the point's square, nothing if its opacity is 0, and nothing outside. |
| PixelArt.PixelBytes | src/tools/map_create_pixelart.cpp:215-229 | Which byte is which channel, row by row; outside of the image the pixel at its edge, and opaque without a fourth byte. |
| PixelArt.ScannedAllShows | src/tools/map_create_pixelart.cpp:109-137 | When the scan is over, the quads of the rectangles found paint every point as the image asks, and no two have a point in common. |
| PixelArt.PaintShowsRect | src/tools/map_create_pixelart.cpp:106-138 | Painting the quads of disjoint rectangles gives each point the colour of the rectangle that has its cell, or none. |
| PixelArt.CoversIsInRect | src/tools/map_create_pixelart.cpp:125-134 | The quad of a rectangle of samples has a point exactly if the rectangle has the point's cell. |
| PixelArt.PaintOver | src/tools/map_create_pixelart.cpp:106-138 | Quads that are appended are seen where they are, and the earlier ones elsewhere. |
| PixelArt.AsManyAsVisible | src/tools/map_create_pixelart.cpp:106-138 | Merging never takes more quads than there are visible samples; without merging there are as many. |
| PixelArt.GetOptimizedQuadSize | src/tools/map_create_pixelart.cpp:140-160 | The rectangle found consists of unvisited samples of the pixel's colour, is as wide as they go on in the first row and as high as the lowest column below it, and exactly its pixels become visited. |
| PixelArt.GrownIsUnique | src/tools/map_create_pixelart.cpp:140-160 | These conditions fix the rectangle. |
| PixelArt.OddSidesFail | src/tools/map_create_pixelart.cpp:106-160 | An image three pixels wide, sampled every two: merging over the right edge marks a visible sample of the next row as visited before it is shown, and a later mark lies behind the memory. |
| PixelArt.SetVisitedPixels | src/tools/map_create_pixelart.cpp:245-250 | Marks the pixels of the rectangle and no others. |
| PixelArt.AddRect | src/tools/map_create_pixelart.cpp:119-135 | Adding the rectangle found keeps the invariant of the scan. |
| PixelArt.QuadsFit | src/tools/map_create_pixelart.cpp:87 | Disjoint rectangles of samples are never more than w·h/p, the size that is reserved. |
| PixelArt.QuadExact | src/tools/map_create_pixelart.cpp:284-311 | The centre and half sizes of a quad give its corners exactly, in the map's fixed point format. |
| CharacterCore.Core.Tick | src/game/gamecore.cpp:142-410 | One tick is one step of the character's run as `CharacterRuns.Ticks` states it, reports the right events, leaves every other character's hook and jumps alone and changes the attached sets as one call of SetHookedPlayer would. |
| CharacterCore.ReportsTell | src/game/gamecore.cpp:250-353 | Meeting ground is reported exactly if the hook has grabbed without a player, meeting an unhookable tile exactly if it has turned back for one, and a catch whenever a player is hooked anew. |
| CharacterCore.ReportsTellKeys | src/game/gamecore.cpp:179-231 | Launches and jumps are reported exactly if made, unless the hook enters a teleporter. |
| CharacterCore.Core.SeenIs | src/game/gamecore.cpp:302-361 | Only other characters that are present can be caught, and only present ones kept. |
| CharacterCore.World.TickOf | src/game/gamecore.cpp:142-410 | One character of a world ticks: a step of the world as `WorldRuns.WorldStep` states it, in which no other character moves. |
| CharacterCore.World.CallOf | src/game/gamecore.cpp:646-668 | One character's hooked player is set: likewise a step of the world. |
| WorldRuns.WorldRunKeeps | src/game/gamecore.cpp:142-668 | In every run of a whole world, whoever ticks or is called in whatever order, the attached sets stay the inverse of the hooked relation, and all characters keep hooks to the grabbed state and the tick limit exactly if every call is of the allowed kind. |
| WorldRuns.EveryoneRuns | src/game/gamecore.cpp:142-668 | In a run of a world every character has a run of its own, whatever the others do: all that holds of single runs holds of each character. |
| CharacterCore.Core.SetHookedPlayer | src/game/gamecore.cpp:646-668 | The whole new state of hooked slots and attached sets; keeps the sets the inverse of the hooked relation. |
| CharacterCore.Core.UpdateAttached | src/game/gamecore.cpp:650-665 | The character leaves the set of whom it had hooked and enters that of whom it hooks; no other set changes. |
| CharacterCore.Core.CatchPlayers | src/game/gamecore.cpp:296-321 | The loop over the slots takes the nearest of the other characters in the way, the lowest slot of several; a hook that holds a player takes no other. |
| CharacterCore.Core.FlyHook | src/game/gamecore.cpp:266-353 | The flying hook: catches, hits the ground, retracts, teleports or flies on. |
| CharacterCore.Core.SwingHook | src/game/gamecore.cpp:250-353 | The chain over the hook states: idle, retracting, retracted, flying. |
| CharacterCore.Core.HandleHook | src/game/gamecore.cpp:212-230 | Launches an idle hook when the key is pressed, lets go when it is released. |
| CharacterCore.Core.HoldHook | src/game/gamecore.cpp:355-406 | A held player is let go without a character to keep or past the time limit. |
| CharacterCore.Core.HandleJump | src/game/gamecore.cpp:179-210 | The two bits of the jump state after the jump key, seen with the landing that follows. |
| CharacterRuns.RunKeepsIff | src/game/gamecore.cpp:212-406 | A run of ticks and of any calls from outside keeps a player hooked only in the grabbed state and within the tick limit, at every moment, exactly if each call releases or finds the hook grabbed within the limit. |
| CharacterRuns.StateStays | src/game/gamecore.cpp:212-406 | Whatever is called from outside, the hook state is always one of its seven values. |
| CharacterRuns.HookedFairly | src/game/gamecore.cpp:266-406 | Whoever is hooked after a tick is present and may be kept; whoever was hooked in this tick was the nearest in the way, and nobody was hooked before. |
| CharacterRuns.FlyingMeets | src/game/gamecore.cpp:266-353 | A flying hook that meets no player grabs exactly the ground, turns back exactly at unhookable tiles and at its length, and flies on otherwise. |
| CharacterRuns.FlyingCatches | src/game/gamecore.cpp:296-373 | If players are in its way it takes the nearest, the lowest slot of several, or lets go at once of one who may not be kept. |
| CharacterRuns.GrabbedHolds | src/game/gamecore.cpp:355-406 | Grabbed ground is held for as long as the keys let it, a player who may be kept while the count is below 60. |
| CharacterRuns.RetractingGoesBack | src/game/gamecore.cpp:257-265 | A hook that turns back is back after three ticks and stays so. |
| CharacterRuns.KeyDecides | src/game/gamecore.cpp:212-231 | Releasing the key makes a hook idle and nothing else does; pressing it launches an idle hook. |
| CharacterRuns.GrabbedMetGround | src/game/gamecore.cpp:221-406 | A hook that has grabbed something and had no player since its launch has met ground since. |
| CharacterRuns.LaunchCounts | src/game/gamecore.cpp:221 | With hook duration 1.25 the count starts at 0, and every 0.02 less is a tick more. |
| CharacterRuns.StepKeepsIff | src/game/gamecore.cpp:212-406 | Of the single steps every tick keeps this, and a call exactly in those cases. |
| CharacterRuns.LaunchesNeedRelease | src/game/gamecore.cpp:212-231 | Between two launches of a run the hook key is released. |
| CharacterRuns.PlayerHookIsShort | src/game/gamecore.cpp:221-406 | A character that starts idle has players hooked, without a break, for at most 60 ticks less the count its launch started with, in every run whose calls from outside are of that kind. |
| CharacterRuns.RetractedHookStays | src/game/gamecore.cpp:250-406 | A player that is set while the hook is retracted stays hooked as long as the hook key is not released: for other calls there is no bound. |
| CharacterRuns.JumpsNeedRelease | src/game/gamecore.cpp:179-210 | Between two jumps of a run the jump key is released. |
| CharacterRuns.JumpsExactly | src/game/gamecore.cpp:179-210 | A jump is made exactly if the key is pressed anew and the character stands and has a jump left, or has not yet jumped in the air. |
| CharacterRuns.HeldMeans | src/game/gamecore.cpp:179-210 | The key counts as held exactly if it was not released since a jump. |
| CharacterRuns.SpentMeans | src/game/gamecore.cpp:198-240 | The air jump counts as spent exactly if the character was not grounded since one. |
| CharacterRuns.AirJumpsNeedGround | src/game/gamecore.cpp:198-240 | Between two air jumps of a run the character is grounded. |
| HookLinks.RelinkKeeps | src/game/gamecore.cpp:646-668 | One call keeps the attached sets the inverse of the hooked relation. |
| HookLinks.CallsKeep | src/game/gamecore.cpp:646-668 | After any sequence of calls by any characters, i is in j's set exactly if i's last call named j. |
| HookLinks.Determined | src/game/gamecore.cpp:646-668 | The hooked relation alone fixes every attached set. |
| HookLinks.RelinkTwice | src/game/gamecore.cpp:646-668 | Of two calls by one character only the last leaves a trace. |
| ConfusablesData.Deduplicate | scripts/generate_unicode_confusables_data.py:110-124 | The distinct entries in ascending order, each with the offset at which it starts; refused exactly for more than eight lengths. |
| ConfusablesData.GenData | scripts/generate_unicode_confusables_data.py:76-108 | If the offsets and lengths fit their bit fields, the tables hold exactly the dictionary's entries, by ascending code point. |
| ConfusablesData.FitsBelow | scripts/generate_unicode_confusables_data.py:56-63 | Fewer than 2^13 elements in entries of less than 2^8 always fit the bit fields, and no offset or length beyond does. |
| ConfusablesData.ConcatAt | scripts/generate_unicode_confusables_data.py:104-124 | The prefix sums of the lengths are where the entries stand in the concatenated data. |
| ConfusablesData.TupleOrder | scripts/generate_unicode_confusables_data.py:114 | The order by which the entries are sorted is a strict total order. |
| Confusables.Lookup | src/base/unicode/confusables.cpp:7-29 | The scan with its early exit finds a code point exactly if the dictionary has it, and its entry. |
| Confusables.Cursor.Next | src/base/unicode/confusables.cpp:45-64 | Gives the elements of the skeleton one by one, and 0 exactly when none is left. |
| Confusables.CompConfusable | src/base/unicode/confusables.cpp:83-102 | Returns 0 exactly for strings with equal skeletons, so looking alike is an equivalence relation. |
| Confusables.ToSkeleton | src/base/unicode/confusables.cpp:66-81 | Writes the skeleton, or the beginning that has room. |
| Confusables.SkeletonOfText | src/base/unicode/confusables.cpp:45-64 | The skeleton of a valid text is its code points replaced one by one, and what follows keeps the skeleton it has alone. |
| Confusables.PlainSkeleton | src/base/unicode/confusables.cpp:45-64 | A text without entries is its own skeleton, and that of one code point with an entry is the entry. |
| Confusables.ErrorInSkeleton | src/base/unicode/confusables.cpp:45-64 | A decoding error stands for itself as -1. |
| Confusables.ConfusableJoins | src/base/unicode/confusables.cpp:83-102 | Texts that look alike followed by strings that look alike look alike. |

## Left out

- Sockets, files, clocks, processes, graphics, the learning loop and its protocol: input and output, or foreign libraries.
- Rounding of `float`: the diagonal cost is a real number strictly between 1 and 2, coordinates and tuning values are real numbers.
- `ai_getareafld`: it only sums directions of the field.
- Failing allocations, and ring sizes that wrap around in 32 bits.
- The error value that the worker stores and `aio_error` returns: the file is a sink that takes all bytes.
- A second `aio_wait` on one handle, and use of a handle after its `aio_free`: the program does neither. Freeing while another caller is inside is not modelled for the same reason.
- `aio_new` when it fails halfway.
- SHA-256 of messages of 2^64 bits or more: the program's 64-bit length wraps around, and `Sha256Spec.Pad` follows it there.
- Decoding to code points before the edit distance (`str_utf8_dist_buffer`): it adds the decoder of `Utf8.dfy` in front.
- Utf8Truncate.Truncate: negative counts, for which the program would copy with size 0, a size that `str_copy` is not made for.
- `strcpy` semantics on memory without a terminator: strings are the bytes before the terminator.
- LineTile.IntersectLineTile: a start left of the map off the grid lines and more than one tile above it is right or wrong depending on whether a segment from it can meet all lines of the second axis at corners; nothing general is claimed of these. The square root in the quotient of lengths is replaced by the quotient that squares to it.
- BoxCollision.MoveBox: the step count is a parameter, the only `max` with max² ≤ |v|² < (max+1)² (`BoxCollision.WholeLengthIs`), which stands for the truncated square root.
- The loops of `IntersectLine` and its relatives for teleporters and weapons.
- PixelArt.InsertPixelArtQuads: images whose sides are no multiple of the pixel size are not covered, because the program fails on them (`PixelArt.OddSidesFail`). The option that forces a common pivot moves no corner of a quad.
- `FindSuperPixelSize` and `GetImagePixelSize`: the pixel size is a parameter.
- Positions, velocities, angles and forces of characters: `Tick` takes what the geometry yields (grounded, too far, what is hit, who is in the way and how near) as part of its scene.
- `TickDeferred`, `Move`, `Quantize`, `Read`: player-to-player forces and state from the network.
- `Reset` and `Init` of a character, which clear attached sets without telling the others.
- Changes to jump and hook fields from outside `Tick` (special tiles, endless hook, loading): runs consist of ticks and of `SetHookedPlayer` calls.
- ConfusablesData.GenData: offsets of 2^13 and more and lengths of 2^8 and more do not fit the bit fields; the tables are then cut, and nothing is claimed.
- The replacement until nothing changes by which the generator makes the dictionary (`gen`), and the Unicode files it reads: the dictionary is a parameter, without element 0, as the generator filters control characters.
