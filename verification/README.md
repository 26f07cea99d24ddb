# Proofs about a C++ font tool, three lock algorithms, libintl and an include-cycle finder

A Dafny model of the algorithmic parts of the repository, with proofs. It has
four independent groups of modules.

**Include cycles.** `Graphs`, `SearchState`, `Tarjan`: the recursive strongly-connected-components
search, with its explicit stack, index and lowlink maps as fields of a class. A
node that is not a key has no successors.

**Font tool.** `Masks`, `Bytes`, `ByteBits` (bit and byte streams), `MatchSearch`,
`Yay0Tokens`, `Yay0Decoder`, `Yay0RoundTrip`, `Yay0Format`, `Yay0Wrap` (the compressor and the
decompressor), `BlockIndex`, `FontImage` (8x8-block pixel packing), `Dither`, `DitherValues`,
`Fnt` (font file, bitmap, and the end-to-end theorem). Every loop of the source
is a method proved against a function, and the theorems are about the functions.
Errors are values: `NotYay0`, `Invalid`, `OutOfRange`, and `Undefined` where the
C++ code has undefined behaviour.

**Locks.** `PosixRecord`, `PosixRwLock`, `PosixSharing`: the mutex and condition variable version.
`WaitQueue`, `HandOffRecord`, `HandOff`, `HandOffLimits`, `HandOffProgress`: the
Win32 version. `Once`: run-once. Each lock object is a class whose methods are
the stretches of code run under the mutex; the runs of any number of threads are
state machines whose steps use the same functions as those methods.

**libintl.** `Primes`, `Probe`, `MessageTable`, `Catalog` (hash table and
lookup), `SysdepStrings`, `SysdepTexts`, `SysdepFill`, `CatalogLoading` (strings put together at
load time), `LocaleName`, `LocaleScan` (names), `CatalogList`, `FindDomain` (the
list of catalogs), `TranslationSearch`, `SplitSearch`, `TwoNodeLocales`,
`SeparatePaths`, `SearchAgain`, `SettledSearch`, `SearchLoops` (the full search, and
making it again), `Bindings`, `Plural`, `TranslationCache`, `GrownLists`, `StaleCache`,
`OddCache`, `AliasCache`, `Translator` (bindings, the cache and when it is wrong, the
calls).
`CStrings` is strcmp. A `char` stands for a byte and `'\0'` ends a string.

Some properties that one might expect turn out not to hold. Each has a proof of
where it fails:

* Yay0: the round trip holds for all inputs of length n if and only if
  16 + n + ceil(n / 8) <= 2^32 (`Yay0Wrap.RoundTripIffFits`). Header fields that
  fit 32 bits do not suffice, because the reader's 32-bit chunk cursor wraps
  (`Yay0Wrap.HeaderFitsIsNotEnough`).
* Win32 lock: with more than 2^31 threads, and only then, `abort` can be reached
  (`HandOffLimits.AbortIffTooMany`). Run-once: with more than 2^32 threads, and
  only then, init can run twice (`Once.TwiceIffTooMany`). With more than INT_MAX
  threads, and only then, readers can wait for readers
  (`HandOffLimits.WaitsForReadersIffTooMany`).
* Hash loops end for every table with a free slot only if the table size is prime
  (`MessageTable.StopsIffPrime`); the code does not check it.
* A locale without empty parts gets one node from the first call and another from
  the second if and only if its codeset is not normalised or is followed by a
  modifier (`FindDomain.SecondCall`): `mednafen/intl/explodename.c:110` compares
  the codeset before line 121 cuts the modifier off. So `de.utf8@x` is built as
  `de.utf8.utf8@x` (`FindDomain.NormalisedYetSplit`). With a normalised codeset
  both nodes lead to the same translations (`TwoNodeLocales.TwinFindsSame`); with
  another they differ exactly when the first catalog file to have the message is
  named by the normalised codeset (`TwoNodeLocales.FirstAndLater`).
* So a hit of the translation cache can say something else than a full search. With
  no slash in names and no aliases: an entry less than 2^32 changes old is wrong
  exactly when it was made by the first call for such a codeset out of such a file
  and the locales behind do not lead to that file (`TranslationCache.WrongExactly`).
  That needs no change at all (`OddCache.WrongIffOdd`, `OddCache.ForInstance` for
  `de.UTF8`). For other locales a hit is wrong only after 2^32 changes, and then it
  can be (`TranslationCache.SteadyCoherent`, `StaleCache.WrongIffWrapped`).
* An alias does not get the same node on every call: another locale can make a node
  of the alias's own name, which is found first from then on, and a hit can be
  wrong with no change in between (`AliasCache.WrongAlias`). `TranslationCache.Coherent`
  covers all locales, with the appearance of that node as the only exception.

Where code and comments disagree the model follows the code:

* `mednafen/intl/l10nflist.c:310-313` says that fallbacks drop the modifier first;
  the loop below it drops it last (`CatalogList.DropsModifierLast`).
* `dolphin/docs/gc-font-tool.cpp:69-72` puts the four greyscale values at 2A to 2D;
  the code writes them at 2C to 2F, behind a four-byte size at 28.

## Model

| member | source | states |
|---|---|---|
| `Tarjan.StronglyConnectedComponents` | dolphin/Tools/find-includes-cycles.py:23-74 | for every graph and key order: the tuples are whole, pairwise disjoint strongly connected components, every edge between two of them leads to an earlier tuple, and their members are exactly what is reachable from the keys |
| `Tarjan.Finder.StrongConnect` | dolphin/Tools/find-includes-cycles.py:37-68 | one recursive call keeps the whole search invariant for the callers still on the stack, marks everything reachable through unmarked nodes, leaves the callers' part of the stack alone, and ends |
| `Tarjan.Finder.VisitSuccessor` | dolphin/Tools/find-includes-cycles.py:49-56 | after a successor is treated, its lowlink contribution is in and the scan invariant holds with that successor done |
| `Tarjan.Finder.EmitIfRoot` | dolphin/Tools/find-includes-cycles.py:58-68 | at a root the popped tuple is a component and is appended; elsewhere a lower node of the stack is reachable |
| `Tarjan.Finder.PopComponent` | dolphin/Tools/find-includes-cycles.py:60-66 | pops exactly down to the root, in reverse stack order |
| `SearchState.RootIsComponent` | dolphin/Tools/find-includes-cycles.py:58-68 | with lowlink equal to index, the stack from the node up is one whole strongly connected class |
| `SearchState.NonRootAnchored` | dolphin/Tools/find-includes-cycles.py:53-56 | a lowlink below the index means that a caller still on the stack can be reached |
| `SearchState.EmitKeepsInv` | dolphin/Tools/find-includes-cycles.py:58-68 | emitting a component keeps every clause of the search invariant |
| `Tarjan.AllEmitted` | dolphin/Tools/find-includes-cycles.py:70-74 | when the outer loop is done everything reachable from a key has been emitted, and nothing else |
| `Tarjan.ComponentsPartition` | dolphin/Tools/find-includes-cycles.py:23-74 | two emitted nodes are in the same tuple if and only if each reaches the other; reachability leads to the same or an earlier tuple |
| `Tarjan.ReachGoesDown` | dolphin/Tools/find-includes-cycles.py:66-68 | whatever a node of a tuple reaches has been emitted no later than that tuple |
| `Tarjan.PrintedIffOnCycle` | dolphin/Tools/find-includes-cycles.py:76-80 | the main program prints a tuple if and only if its nodes lie on a cycle through another node |
| `Masks.PackBitsPacks` | dolphin/docs/gc-font-tool.cpp:616-642 | bit i of the packed mask stream is the i-th bit pushed, highest bit first, in as few bytes as possible, the unused bits clear |
| `Masks.MaskWriter.PushBack` | dolphin/docs/gc-font-tool.cpp:619-631 | pushing a bit appends it to the packed stream |
| `Masks.MaskReader.PopFront` | dolphin/docs/gc-font-tool.cpp:652-664 | reads the next bit and advances by one; fails exactly past the end of the input |
| `Masks.BitsInFile` | dolphin/docs/gc-font-tool.cpp:652-664 | bits are read back from a packed stream embedded in a file |
| `Masks.OrBitEffect` | dolphin/docs/gc-font-tool.cpp:629-630 | or-ing a shifted bit into the last byte sets that bit and no other |
| `Bytes.Be16ReadBack` | dolphin/docs/gc-font-tool.cpp:723-742 | a big-endian 16-bit field anywhere in a file reads back as the value cut to 16 bits |
| `Bytes.Be32ReadBack` | dolphin/docs/gc-font-tool.cpp:730-749 | the same for 32-bit fields |
| `Bytes.BigEndian` | dolphin/docs/gc-font-tool.cpp:723-748 | big-endian fields by their bytes, highest digit first |
| `Bytes.ReadBigEndian` | dolphin/docs/gc-font-tool.cpp:723-734 | big-endian fields read by their bytes |
| `Bytes.LittleEndian` | dolphin/docs/gc-font-tool.cpp:751-762 | little-endian fields by their bytes, lowest digit first |
| `MatchSearch.FindLink` | dolphin/docs/gc-font-tool.cpp:786-823 | the link length is min(longest match in the window, 273, remaining - 1), and the offset is the first whose match, cut at min(274, remaining), is the greatest |
| `MatchSearch.ExtendMatch` | dolphin/docs/gc-font-tool.cpp:795-808 | the inner loop measures the match length up to that cap and says when it was reached |
| `MatchSearch.SearchFinds` | dolphin/docs/gc-font-tool.cpp:788-823 | the loop over all offsets, with its early exit, finds the capped maximum and the first offset having it |
| `MatchSearch.MatchLengthIs` | dolphin/docs/gc-font-tool.cpp:795-808 | a match length is the length of the run of equal bytes, and no more |
| `Yay0Tokens.Compress` | dolphin/docs/gc-font-tool.cpp:776-856 | the file written is header, masks, links and chunks of the token sequence, in that layout |
| `Yay0Tokens.TokenAtFits` | dolphin/docs/gc-font-tool.cpp:825-848 | every link fits its fields, stays inside the input and repeats bytes that precede it |
| `Yay0Tokens.FindToken` | dolphin/docs/gc-font-tool.cpp:786-848 | the search and the test for length 3 yield the next token of the sequence |
| `Yay0Decoder.Decompress` | dolphin/docs/gc-font-tool.cpp:860-921 | for every byte sequence, well formed or not: the same bytes or the same error as the cursor-by-cursor reading of the file |
| `Yay0Decoder.FollowLink` | dolphin/docs/gc-font-tool.cpp:893-914 | the link branch: where it throws, the count taken from the link or the chunk stream, the two cursors, the replayed bytes |
| `Yay0Format.HeaderBytes` | dolphin/docs/gc-font-tool.cpp:848-856 | the mark 59 61 79 30, the size, and the offsets of links and chunks behind as many masks as there are tokens and as many links as they need, each cut to 32 bits |
| `Yay0Format.RefusedIff` | dolphin/docs/gc-font-tool.cpp:862-876 | a file is refused as not Yay0 if and only if one of its first four bytes is there and differs; shorter than its header it is invalid |
| `Yay0Format.LiteralBytes` | dolphin/docs/gc-font-tool.cpp:839-846 | a literal is a set bit of the masks and its byte in the chunks |
| `Yay0Format.LinkBytesAre` | dolphin/docs/gc-font-tool.cpp:825-838 | a link is a clear bit and two bytes, count - 2 in the upper four bits and offset - 1 in the other twelve; from 18 on the upper bits are 0 and count - 18 is a chunk |
| `Yay0Format.MaskBit` | dolphin/docs/gc-font-tool.cpp:616-642 | bit i of the masks, the highest of each byte first |
| `Yay0Format.ReadingStops` | dolphin/docs/gc-font-tool.cpp:876-905 | for any file: reading stops if and only if a stream has ended or a link points behind the start |
| `Yay0Format.ReadingLiteral` | dolphin/docs/gc-font-tool.cpp:884-890 | a literal read adds its byte and moves the chunk cursor by one |
| `Yay0Format.ReadingLink` | dolphin/docs/gc-font-tool.cpp:893-914 | a link read adds as many bytes as its count says, each equal to the one its offset before it |
| `Yay0Format.Greedy` | dolphin/docs/gc-font-tool.cpp:786-848 | every token is the longest link there can be, up to 273 bytes and short of the end, and a literal if and only if that has less than three |
| `Yay0Format.SmallestOffset` | dolphin/docs/gc-font-tool.cpp:788-823 | and its offset is the smallest one with the longest run, runs being compared up to 274 bytes |
| `Yay0RoundTrip.ReplayCopies` | dolphin/docs/gc-font-tool.cpp:912-913 | replaying a link over data repeating at its offset continues that data, also when the link overlaps its own output |
| `Yay0RoundTrip.ReadsLink` | dolphin/docs/gc-font-tool.cpp:825-914 | a link written is read back with its offset and count on both sides of the 17/18 boundary, each cursor advancing by what was written |
| `Yay0RoundTrip.ReadsLiteral` | dolphin/docs/gc-font-tool.cpp:840-890 | a literal written is read back, the chunk cursor advancing by one |
| `Yay0RoundTrip.DecodesRest` | dolphin/docs/gc-font-tool.cpp:776-914 | from every token boundary the reader finishes with the whole input and never reads out of range |
| `Yay0RoundTrip.RoundTrip` | dolphin/docs/gc-font-tool.cpp:776-921 | decompression undoes compression for every input whose compressed file is at most 2^32 bytes |
| `Yay0RoundTrip.RoundTripBySize` | dolphin/docs/gc-font-tool.cpp:776-921 | the same under a test of the input length alone |
| `Yay0RoundTrip.TooLongFails` | dolphin/docs/gc-font-tool.cpp:776-921 | an input of 2^32 bytes or more never comes back |
| `Yay0RoundTrip.SizeBound` | dolphin/docs/gc-font-tool.cpp:776-856 | the compressed length is at most 16 + n + ceil(n / 8) |
| `Yay0RoundTrip.OutputSize` | dolphin/docs/gc-font-tool.cpp:882-916 | output overshoots the announced size by less than one link |
| `Yay0Wrap.HeaderFitsIsNotEnough` | dolphin/docs/gc-font-tool.cpp:872-890 | a concrete 3.9 GB input whose three header fields all fit 32 bits and which does not come back, because the chunk cursor wraps |
| `Yay0Wrap.RoundTripIffFits` | dolphin/docs/gc-font-tool.cpp:776-921 | decompression undoes compression for all inputs of length n if and only if 16 + n + ceil(n / 8) <= 2^32 |
| `Yay0Wrap.Wraps` | dolphin/docs/gc-font-tool.cpp:872-890 | for the inputs built to compress to literals only: the first literal without a 32-bit address is read from the start of the file, and the input does not come back |
| `Yay0Wrap.OutputKeeps` | dolphin/docs/gc-font-tool.cpp:882-914 | output is never taken back: what has been decoded is the start of the result |
| `BlockIndex.PixelSlot` | dolphin/docs/gc-font-tool.cpp:924-1015 | block packing is one-to-one: each pixel of a whole image has one slot of one packed byte |
| `BlockIndex.SlotPixel` | dolphin/docs/gc-font-tool.cpp:924-1015 | and each slot of each packed byte has one pixel |
| `FontImage.PackBitsIs` | dolphin/docs/gc-font-tool.cpp:952-961 | the encoder's masks, shifts and ors put the top two bits of four pixels side by side |
| `FontImage.SlotBitsIs` | dolphin/docs/gc-font-tool.cpp:1001-1009 | the decoder's shifts and masks take each of them out again |
| `FontImage.SlotOfJoin` | dolphin/docs/gc-font-tool.cpp:945-952 | the four 2-bit fields of a packed byte are recovered |
| `FontImage.JoinOfSlots` | dolphin/docs/gc-font-tool.cpp:985-1000 | a byte is rebuilt from its four fields |
| `FontImage.I2Encode` | dolphin/docs/gc-font-tool.cpp:924-967 | the nested loops with their four row offsets produce the packed image, each byte at its place |
| `FontImage.I2Decode` | dolphin/docs/gc-font-tool.cpp:970-1015 | the decoder's loops produce the plain image, each pixel at its place |
| `FontImage.PlainOfPacked` | dolphin/docs/gc-font-tool.cpp:924-1015 | decoding an encoded image replaces each pixel by pixel / 64 * 85 in place |
| `FontImage.PackedAt` | dolphin/docs/gc-font-tool.cpp:924-967 | by rows and columns: which two bits of which byte of the packed picture are the highest two of a pixel |
| `FontImage.PlainAtPlace` | dolphin/docs/gc-font-tool.cpp:970-1015 | by rows and columns: a decoded pixel is 85 times its two bits |
| `FontImage.PackedOfPlain` | dolphin/docs/gc-font-tool.cpp:924-1015 | encoding a decoded image gives the packed data back |
| `Dither.DitherFourColour` | dolphin/docs/gc-font-tool.cpp:1029-1057 | the in-place double loop computes the specified image for every width |
| `DitherValues.DitheredValue` | dolphin/docs/gc-font-tool.cpp:1029-1057 | a pixel ends as the level at or below what it holds when its turn comes: its own value and, from the errors of its upper left, upper, upper right and left neighbours, 1, 5, 3 and 7 sixteenths, up to white |
| `Dither.TopBits` | dolphin/docs/gc-font-tool.cpp:1038-1039 | masking off the lower six bits leaves the grey level at or below the pixel |
| `Dither.AddClampAt` | dolphin/docs/gc-font-tool.cpp:1018-1027 | adds and clamps one neighbour and changes nothing else |
| `Dither.PixelEffect` | dolphin/docs/gc-font-tool.cpp:1037-1054 | in rows and columns: the turn at a pixel leaves its grey level and adds to every other pixel its Floyd-Steinberg weight of the error, cut at white |
| `Dither.DitherEffect` | dolphin/docs/gc-font-tool.cpp:1029-1057 | every pixel of a whole row ends as 00, 40, 80 or C0, an incomplete last row is untouched, and the total never grows |
| `Dither.DitherIdempotent` | dolphin/docs/gc-font-tool.cpp:1029-1057 | dithering a dithered image changes nothing |
| `Dither.Shares` | dolphin/docs/gc-font-tool.cpp:1041-1053 | the four shares never add up to more than the error |
| `Dither.SiteFrame` | dolphin/docs/gc-font-tool.cpp:1041-1053 | spreading an error touches only pixels that are still to be visited |
| `Fnt.FntFields` | dolphin/docs/gc-font-tool.cpp:1113-1147 | the width and tile offset that the viewer reads, and the tile data where the offset points |
| `Fnt.FntWidths` | dolphin/docs/gc-font-tool.cpp:1113-1147 | the widths where their offset points, and the tile data size |
| `Fnt.FntBytes` | dolphin/docs/gc-font-tool.cpp:1119-1140 | all other bytes of the font header: type, characters, cells, texture and greys |
| `Fnt.HeadBytes` | dolphin/docs/gc-font-tool.cpp:1065-1083 | all other bytes of the bitmap's headers: mark, sizes, planes and bits per pixel |
| `Fnt.ViewShows` | dolphin/docs/gc-font-tool.cpp:1093-1111 | for a font of any width and any tile data: which bits of the font each pixel of the bitmap shows, as 85 times their value |
| `Fnt.PaletteEntry` | dolphin/docs/gc-font-tool.cpp:1085-1087 | palette entry i is the grey of value i |
| `Fnt.BmpFields` | dolphin/docs/gc-font-tool.cpp:1060-1109 | the bitmap file states its own length, where its pixels start, its width, and its height as rows from the top |
| `Fnt.GenerateBmpHeader` | dolphin/docs/gc-font-tool.cpp:1060-1091 | the 1078 bytes of the bitmap header, its palette loop included |
| `Fnt.FntToBmp` | dolphin/docs/gc-font-tool.cpp:1093-1111 | for every input, without a condition: the bitmap, or the error that leaves the function, or that the behaviour is undefined |
| `Fnt.EndToEnd` | dolphin/docs/gc-font-tool.cpp:1093-1147 | a 512-wide image of whole blocks that is packed, wrapped in a font, compressed and viewed is the bitmap header and the quantised pixels |
| `PosixRecord.RwLock.ReadAttempt` | mednafen/intl/lock.c:155-173 | a stretch of rdlock under the mutex: who gets in, and the new record |
| `PosixRecord.RwLock.WriteAttempt` | mednafen/intl/lock.c:182-200 | wrlock up to its first wait |
| `PosixRecord.RwLock.WriteRetry` | mednafen/intl/lock.c:186-200 | wrlock from a wakeup to the next wait |
| `PosixRecord.RwLock.Unlock` | mednafen/intl/lock.c:205-258 | unlock: EINVAL or the new record and who is to be woken |
| `PosixRecord.RefusedIff` | mednafen/intl/lock.c:211-231 | unlock reports EINVAL if and only if runcount is 0 or below -1 |
| `PosixRwLock.AlwaysInv` | mednafen/intl/lock.c:148-258 | in every state of every run, with any number of threads and spurious wakeups: runcount is the number of reading threads or -1 with one writing, the waiting writers are counted, and with the lock free a blocked thread implies a woken writer |
| `PosixRwLock.StepKeepsInv` | mednafen/intl/lock.c:148-258 | each step by itself keeps that invariant |
| `PosixRwLock.UnlockKeepsInv` | mednafen/intl/lock.c:205-258 | the same for unlock, the step that has to pass the lock on |
| `PosixRwLock.HolderUnlocks` | mednafen/intl/lock.c:211-231 | a holder's unlock never reports EINVAL |
| `PosixRwLock.Exclusion` | mednafen/intl/lock.c:148-258 | a writer holds the lock alone |
| `PosixRwLock.WritersFirst` | mednafen/intl/lock.c:157-162 | a reader that gets in leaves no writer waiting |
| `PosixRwLock.ReaderEnters` | mednafen/intl/lock.c:157-162 | a reader gets in if and only if no writer waits or holds the lock and fewer than INT_MAX threads read |
| `PosixRwLock.WriterEnters` | mednafen/intl/lock.c:184-196 | a writer gets in if and only if nobody holds the lock |
| `PosixRwLock.PassesOn` | mednafen/intl/lock.c:232-256 | the last holder wakes a waiting writer if there is one and otherwise all waiting readers, any other holder nobody |
| `PosixSharing.ShareIffCountable` | mednafen/intl/lock.c:155-173 | k of n threads can read at once if and only if k <= n and k <= INT_MAX |
| `PosixRwLock.CanDrain` | mednafen/intl/lock.c:148-258 | while anybody holds the lock or waits, a holder can unlock or a woken thread can get in |
| `PosixRwLock.RunsEmpty` | mednafen/intl/lock.c:148-258 | from every reachable state the lock can be run empty, every waiter having its turn |
| `PosixRwLock.DrainIsBounded` | mednafen/intl/lock.c:148-258 | without new callers and spurious wakeups every run is bounded |
| `WaitQueue.Queue.Add` | mednafen/intl/lock.c:698-744 | appends to the FIFO, also when the array grows; on failure the queue is unchanged |
| `WaitQueue.Queue.Grow` | mednafen/intl/lock.c:703-734 | growth to 2 n + 1 keeps the contents and puts the head at the start |
| `WaitQueue.Rotate` | mednafen/intl/lock.c:714-731 | the two copying loops put the circular contents in order from slot 0, inside the allocation |
| `WaitQueue.Queue.NotifyFirst` | mednafen/intl/lock.c:748-756 | sets and removes the head |
| `WaitQueue.Queue.NotifyAll` | mednafen/intl/lock.c:759-773 | sets all events in queue order and empties the queue |
| `HandOffRecord.RwLock.ReadEnter` | mednafen/intl/lock.c:801-837 | rdlock inside the critical section: entered, queued last, or out of memory |
| `HandOffRecord.RwLock.WriteEnter` | mednafen/intl/lock.c:855-889 | wrlock likewise |
| `HandOffRecord.RwLock.Unlock` | mednafen/intl/lock.c:892-934 | unlock: EPERM, abort, or the new record and the events that are set |
| `HandOffRecord.RefusedIff` | mednafen/intl/lock.c:898-914 | unlock reports EPERM if and only if runcount is 0 and aborts if and only if it is below -1 |
| `HandOff.AlwaysInv` | mednafen/intl/lock.c:785-934 | in every state of every run of at most 2^31 threads: runcount counts the holders, granted threads included; the queues list exactly the waiting threads; nobody waits for a free lock; no thread has aborted |
| `HandOff.WakeKeepsInv` | mednafen/intl/lock.c:814-822 | a granted thread is already counted when it wakes, so its check passes |
| `HandOff.UnlockKeepsInv` | mednafen/intl/lock.c:892-934 | handing over to the first writer or to all readers keeps the invariant |
| `HandOff.HolderUnlocks` | mednafen/intl/lock.c:898-914 | a holder's unlock neither aborts nor reports EPERM |
| `HandOff.Exclusion` | mednafen/intl/lock.c:785-934 | a writer has the lock alone, granted threads included |
| `HandOff.ReaderEnters` | mednafen/intl/lock.c:801-806 | a reader gets in at once if and only if no writer has the lock, granted ones included, and fewer than INT_MAX threads have it |
| `HandOff.WriterEnters` | mednafen/intl/lock.c:855-860 | a writer gets in at once if and only if nobody has the lock |
| `HandOff.ServedInOrder` | mednafen/intl/lock.c:859-871 | queued writers are handed the lock in arrival order, none is skipped |
| `HandOff.HandsOver` | mednafen/intl/lock.c:915-931 | the last holder hands over to the first queued writer alone, or without one to every queued reader |
| `HandOff.AlwaysForWriter` | mednafen/intl/lock.c:802-806 | with at most INT_MAX threads waiting readers imply runcount == -1 |
| `HandOffLimits.WaitsForReadersIffTooMany` | mednafen/intl/lock.c:802-806 | a reader can have to wait although no writer holds the lock if and only if there are more than INT_MAX threads |
| `HandOffLimits.AbortIffTooMany` | mednafen/intl/lock.c:785-934 | abort is reachable if and only if there are more than 2^31 threads |
| `HandOffProgress.RunsEmpty` | mednafen/intl/lock.c:785-934 | from every reachable state the lock can be run empty |
| `HandOffProgress.DrainIsBounded` | mednafen/intl/lock.c:785-934 | without new callers and idle turns of the retry loops every run is bounded by a measure of its first state |
| `HandOffProgress.CanDrain` | mednafen/intl/lock.c:785-934 | while anybody holds the lock or waits some thread can make progress |
| `Once.RunsOnce` | mednafen/intl/lock.c:1020-1055 | under every schedule of at most 2^32 threads: init is called at most once, no thread aborts or enters an uninitialised critical section, and a call that has returned found init finished |
| `Once.AdvanceKeepsInv` | mednafen/intl/lock.c:1020-1055 | every single operation of every thread keeps the invariant behind that |
| `Once.CallReturns` | mednafen/intl/lock.c:1020-1055 | from every reachable state every call can be run to its return by threads that are in a call |
| `Once.TwiceIffTooMany` | mednafen/intl/lock.c:1025-1038 | init can be called twice if and only if there are more than 2^32 threads |
| `Primes.NoSmallFactors` | mednafen/intl/loadmsgcat.c:1204-1230 | a prime size divides no product of smaller numbers; the reason why probing does not repeat |
| `Probe.IncrIs` | mednafen/intl/loadmsgcat.c:1213-1214 | the step is between 1 and size - 2 and, less one, congruent to the hash modulo size - 2 |
| `Probe.SlotIs` | mednafen/intl/loadmsgcat.c:1213-1229 | the overflow-free stepping visits (hash % size + k * incr) % size |
| `Probe.NoRepeat` | mednafen/intl/loadmsgcat.c:1213-1229 | with a prime size no slot is visited twice before all are visited |
| `Probe.VisitsAllIffPrime` | mednafen/intl/loadmsgcat.c:1213-1229 | every hash visits every slot if and only if the size is prime |
| `MessageTable.StopsIffPrime` | mednafen/intl/loadmsgcat.c:1216-1229 | the loop ends for every hash and every table with a free slot if and only if the size is prime |
| `MessageTable.Insert` | mednafen/intl/loadmsgcat.c:1209-1230 | writes into the first free slot of the probe, in place, and nowhere else |
| `MessageTable.StaysPlaced` | mednafen/intl/loadmsgcat.c:1216-1223 | strings that are in their place stay in their place |
| `MessageTable.NewIsPlaced` | mednafen/intl/loadmsgcat.c:1216-1223 | and the new string is in its place |
| `Catalog.Augment` | mednafen/intl/loadmsgcat.c:1204-1230 | the table of the file, extended by all strings put together at load time, indexes every string, and loses just that many free slots |
| `Catalog.InsertKeepsIndex` | mednafen/intl/loadmsgcat.c:1209-1230 | one turn of that loop |
| `Catalog.MatchesIsKey` | mednafen/intl/dcigettext.c:925-939 | length test and strcmp together hold exactly for the string's own msgid, plural entries with an inner NUL included |
| `Catalog.FindByHash` | mednafen/intl/dcigettext.c:911-954 | the probe loop ends and returns a string with this msgid, or none if there is none |
| `Catalog.FindBySearch` | mednafen/intl/dcigettext.c:955-984 | the binary search does the same on sorted msgids |
| `Catalog.FindBothWays` | mednafen/intl/dcigettext.c:908-984 | both give the same answer on a sorted catalog |
| `CStrings.StrcmpZero` | mednafen/intl/dcigettext.c:281-315 | strcmp gives 0 for equal strings only |
| `CStrings.StrcmpFirst` | mednafen/intl/dcigettext.c:955-984 | the first difference decides, and a string comes before what it starts |
| `CStrings.BeforeTrans` | mednafen/intl/bindtextdom.c:98-110 | the order of strcmp is transitive, which early exit from sorted lists needs |
| `SysdepStrings.MeasureString` | mednafen/intl/loadmsgcat.c:1018-1063 | the need of one string, or that it is undefined here, or that the file is invalid |
| `SysdepStrings.Measure` | mednafen/intl/loadmsgcat.c:1009-1076 | the number of pairs kept and the memory of their strings, or invalid |
| `SysdepStrings.TextSize` | mednafen/intl/loadmsgcat.c:1018-1187 | the measured need is the length of the text that the filling pass writes |
| `SysdepTexts.NeedByFirst` | mednafen/intl/loadmsgcat.c:1018-1063 | the first segment that does not go on decides: the file is invalid if its reference is out of range, the string undefined if its value is, and at the end the need is what there is to copy |
| `SysdepTexts.StopsOnce` | mednafen/intl/loadmsgcat.c:1018-1063 | there is just one such segment, so each outcome comes about exactly so |
| `SysdepTexts.TextPieces` | mednafen/intl/loadmsgcat.c:1132-1193 | each segment stands in the text behind what those before it take up, first its fixed text and then its value |
| `SysdepTexts.InvalidIff` | mednafen/intl/loadmsgcat.c:1009-1076 | a file is invalid if and only if one of its pairs makes it so |
| `SysdepTexts.KeptIff` | mednafen/intl/loadmsgcat.c:1009-1076 | a pair is kept if and only if both its strings can be put together |
| `SysdepFill.IsUsable` | mednafen/intl/loadmsgcat.c:1094-1130 | the filling pass keeps a string exactly when the measuring pass did |
| `SysdepFill.FillSegments` | mednafen/intl/loadmsgcat.c:1162-1189 | the copying loop writes the concatenation of fixed text and values and moves the cursor by the measured need |
| `SysdepFill.FillPair` | mednafen/intl/loadmsgcat.c:1132-1193 | both descriptors of a pair stand for its two texts; earlier memory is untouched |
| `SysdepFill.FillAll` | mednafen/intl/loadmsgcat.c:1089-1202 | all kept pairs in order, the count check never fails, the cursor ends at the end of the block |
| `SysdepFill.Load` | mednafen/intl/loadmsgcat.c:1005-1202 | both passes together: invalid if and only if a reference is out of range where it is looked at; otherwise the tables show all kept texts |
| `SysdepFill.KeptGrows` | mednafen/intl/loadmsgcat.c:1089-1199 | no pair outgrows what was measured for all |
| `CatalogLoading.LoadDomain` | mednafen/intl/loadmsgcat.c:1005-1238 | the loaded catalog: texts of the kept pairs, and a table that indexes all strings and has a free slot left |
| `CatalogLoading.LoadAndFind` | mednafen/intl/loadmsgcat.c:1005-1238 | loading a catalog whose msgids end with a NUL and then asking: a translation is one of the file or of a kept pair with that msgid, and none is returned only if there is none |
| `CatalogLoading.FindMessage` | mednafen/intl/dcigettext.c:908-995 | a message is found by its msgid and its own translation is returned, from the file or put together at load time |
| `LocaleName.ParsedIs` | mednafen/intl/explodename.c:56-135 | the parts found in a name, written one after the other, are the name |
| `LocaleName.ParsedOfWritten` | mednafen/intl/explodename.c:56-135 | well-formed parts, written and taken apart, come back, so different parts are written differently |
| `LocaleName.NormalisedIs` | mednafen/intl/l10nflist.c:346-383 | normalising gives a nonempty string of small letters and digits and is idempotent |
| `LocaleName.NormalisedSpells` | mednafen/intl/l10nflist.c:346-383 | character by character: the letters and digits in order, capitals moved up by 32, behind iso if and only if there is no letter |
| `LocaleName.NormalisedExamples` | mednafen/intl/l10nflist.c:346-383 | UTF-8 becomes utf8 and 8859-1 becomes iso88591 |
| `LocaleName.ParsedExample` | mednafen/intl/explodename.c:56-135 | the parts of de_DE.UTF-8@euro |
| `LocaleName.PrintsBack` | mednafen/intl/l10nflist.c:211-245 | exploding and printing by the mask gives the name back if and only if it has no language, or no part is present and empty and the codeset, if any, is normalised and not followed by a modifier |
| `LocaleName.SmallerPrintsName` | mednafen/intl/l10nflist.c:211-245 | which smaller masks print the whole name, and exactly when: the one without the normalised codeset and, if the codeset is normalised, the one without the codeset |
| `LocaleName.ReadsBack` | mednafen/intl/l10nflist.c:211-245 | what any allowed mask prints, taken apart again, gives the parts it selected |
| `LocaleScan.NormalizeCodeset` | mednafen/intl/l10nflist.c:346-383 | the two loops compute the normalised codeset |
| `LocaleScan.ExplodeName` | mednafen/intl/explodename.c:56-135 | the scan with NULs written into the buffer, the codeset being compared before the modifier is cut off: mask and parts read through the pointers are the specified ones |
| `LocaleScan.Respell` | mednafen/intl/explodename.c:104-113 | the comparison that decides about the normalised codeset, made while the modifier still hangs on to the codeset |
| `LocaleScan.CutPart` | mednafen/intl/explodename.c:71-93 | one part: its mark overwritten, its pointer, and where the scan stands afterwards |
| `CatalogList.Domains.Find` | mednafen/intl/l10nflist.c:247-266 | the walk with early exit finds a name if and only if it is in the list |
| `CatalogList.Domains.Insert` | mednafen/intl/l10nflist.c:298-299 | insertion keeps the list strictly decreasing |
| `CatalogList.Domains.Make` | mednafen/intl/l10nflist.c:175-340 | the node of the name; when made, all lesser masks have nodes, its fallbacks are exactly those in decreasing order of masks, and so for every node made with it; old nodes stay |
| `CatalogList.Domains.Fill` | mednafen/intl/l10nflist.c:302-337 | the recursive loop over the masks |
| `CatalogList.FallbacksBelowAre` | mednafen/intl/l10nflist.c:314-316 | the loop meets each lesser mask once, in decreasing order |
| `CatalogList.FallbackBits` | mednafen/intl/l10nflist.c:314-316 | the fallbacks by the bits of their masks |
| `CatalogList.SpelledOut` | mednafen/intl/l10nflist.c:211-245 | the file name of a mask, part by part with its marks |
| `CatalogList.DropsModifierLast` | mednafen/intl/l10nflist.c:310-316 | everything with the modifier comes before everything without; the comment there says the opposite |
| `FindDomain.Find` | mednafen/intl/finddomain.c:87-161 | which node is returned and what is in the list afterwards; no node is ever changed |
| `FindDomain.SecondCall` | mednafen/intl/finddomain.c:91-161 | a second call returns the first call's node, except exactly when the first had to make it, no part is empty, and the codeset is not normalised or is followed by a modifier |
| `FindDomain.NormalisedYetSplit` | mednafen/intl/explodename.c:110-113 | de.utf8@x, with a normalised codeset and no empty part, gets mask 11 and is printed as de.utf8.utf8@x |
| `FindDomain.ThirdCall` | mednafen/intl/finddomain.c:91-161 | from the second call on nothing changes |
| `FindDomain.RegularBuiltIsWhole` | mednafen/intl/finddomain.c:91-161 | the node built is the node of the whole name if and only if the name is regular |
| `FindDomain.MakesWhole` | mednafen/intl/l10nflist.c:314-337 | building an irregular name also makes a node of the whole name if and only if no part is empty |
| `Bindings.Table.SetBindingValues` | mednafen/intl/bindtextdom.c:77-316 | the sorted list refines a map; the counter is bumped if and only if the map changes; the values handed back are those in force |
| `Bindings.Table.Find` | mednafen/intl/bindtextdom.c:98-110 | the walk with early exit |
| `Bindings.Table.Place` | mednafen/intl/bindtextdom.c:275-292 | the walk to the place of a new binding |
| `Bindings.ListsOneMap` | mednafen/intl/bindtextdom.c:77-316 | a list stands for just one map, so what the list holds determines what is bound |
| `Bindings.Inserted` | mednafen/intl/bindtextdom.c:275-292 | insertion at that place keeps the order and adds one binding |
| `Bindings.BoundAnswers` | mednafen/intl/bindtextdom.c:77-316 | the directory and the codeset bound last are handed back, each by itself, and before that the defaults; other domains keep theirs |
| `Plural.PluralLookup` | mednafen/intl/dcigettext.c:1404-1436 | the start of the form asked for, or of the first form if there is none such |
| `Plural.LookupForm` | mednafen/intl/dcigettext.c:1404-1436 | of any forms joined by NULs it is the form asked for if the catalog has it and nplurals allows it, and the first one otherwise |
| `Plural.HoldsSome` | mednafen/intl/dcigettext.c:1415-1434 | every text is some forms joined by NULs |
| `Plural.HoldsOne` | mednafen/intl/dcigettext.c:1415-1434 | and of just one list of forms |
| `Plural.FormOfJoined` | mednafen/intl/dcigettext.c:1415-1434 | the forms of an entry come back one by one, and no others |
| `TranslationSearch.SearchesOne` | mednafen/intl/dcigettext.c:686-845 | the list of catalogs before and after a search determines what it finds |
| `TranslationSearch.TryNodeStays` | mednafen/intl/dcigettext.c:721-754 | what is found from a node stays the same however the list grows |
| `TranslationSearch.FirstFileHas` | mednafen/intl/dcigettext.c:726-752 | what is found from a node is in its own file or, failing that, in the first of its fallbacks that has the message |
| `TranslationSearch.StopsAtC` | mednafen/intl/dcigettext.c:705-720 | nothing is looked for from C or POSIX on, and any other locale is visited |
| `SplitSearch.TryMasksIs` | mednafen/intl/dcigettext.c:736-754 | trying the fallbacks of a node is trying the lesser masks from the top down |
| `SplitSearch.FilesDecide` | mednafen/intl/dcigettext.c:736-754 | for a codeset that is not normalised the searches from its two nodes differ if and only if the first file to have the message, in the order of the masks, is named by the normalised codeset |
| `SplitSearch.SameFind` | mednafen/intl/l10nflist.c:314-337 | with both codesets spelled alike the search from the node built and the search from the node of the whole name find the same |
| `TwoNodeLocales.TwinFindsSame` | mednafen/intl/finddomain.c:91-161 | so for a normalised codeset and a modifier the first call, which builds, and the later calls, which look up, find the same |
| `TwoNodeLocales.FirstAndLater` | mednafen/intl/finddomain.c:91-161 | for a codeset that is not normalised they differ if and only if the first catalog file to have the message is named by the normalised codeset |
| `SeparatePaths.PathParts` | mednafen/intl/l10nflist.c:211-245 | file names whose parts hold no slash tell directory, locale, category and domain |
| `SeparatePaths.PairedStays` | mednafen/intl/finddomain.c:156-159 | whoever makes the first of the two nodes of a locale makes the second |
| `SeparatePaths.NoEmptyStays` | mednafen/intl/finddomain.c:156-159 | and nobody makes a node of a whole name that has an empty part |
| `SearchAgain.SameUnlessMoved` | mednafen/intl/dcigettext.c:686-845 | for any locales: a search made again finds the same, unless the node of the whole name of a locale has appeared from which the first search did not start |
| `SearchAgain.DiffersExactly` | mednafen/intl/dcigettext.c:686-845 | without aliases, and with the two nodes of each locale made together: it finds something else if and only if the hit came from a first call for a codeset that is not normalised, out of a file named by the normalised codeset, and the locales behind do not lead to it |
| `SettledSearch.SearchOrderly` | mednafen/intl/dcigettext.c:686-845 | a search of locales without slashes makes the two nodes of each locale together |
| `GrownLists.CanVisit` | mednafen/intl/finddomain.c:87-161 | from every list a locale can be visited, with a list afterwards that can be written down |
| `SearchLoops.Search` | mednafen/intl/dcigettext.c:686-845 | the loop over the locales, whatever they are, is a search from the list that there was to the list that there is, with the result found |
| `SearchLoops.SearchLocale` | mednafen/intl/dcigettext.c:721-754 | one locale, from whichever of its nodes is found or built |
| `SearchLoops.FindInNode` | mednafen/intl/dcigettext.c:726-752 | a node first, then its fallbacks in order |
| `TranslationCache.TranscmpOrders` | mednafen/intl/dcigettext.c:281-315 | the comparison of cache entries is a strict total order on queries, so the tree is a map |
| `TranslationCache.AlwaysInv` | mednafen/intl/dcigettext.c:546-845 | in every state of every run, for an entry as old as the counter, the search behind it would, node by node, find the same now |
| `TranslationCache.StepKeepsInv` | mednafen/intl/bindtextdom.c:311-313 | every binding, textdomain call and lookup keeps that |
| `TranslationCache.BoundIsSearched` | mednafen/intl/dcigettext.c:609-656 | a bound directory, behind the working directory if relative, and a bound codeset are those searched with |
| `TranslationCache.FileIs` | mednafen/intl/dcigettext.c:673-679 | the file looked for: directory, locale, category and domain |
| `TranslationCache.Coherent` | mednafen/intl/dcigettext.c:546-593 | for any locales, aliases included: a hit less than 2^32 changes old equals the outcome of a full search made at that moment, unless the node of the whole name of a locale that its search built another node for has appeared |
| `TranslationCache.WrongExactly` | mednafen/intl/dcigettext.c:546-593 | without aliases and without slashes in names: such a hit is wrong if and only if it came from the first call for a codeset that is not normalised, out of a file named by the normalised codeset, and no locale behind leads to that file |
| `TranslationCache.SteadyCoherent` | mednafen/intl/dcigettext.c:546-593 | for all other locales such a hit is never wrong |
| `StaleCache.WrongIffWrapped` | mednafen/intl/dcigettext.c:577-577 | for those locales a run of at most n changes can end with a wrong hit if and only if n >= 2^32 |
| `StaleCache.StaleHit` | mednafen/intl/dcigettext.c:577-577 | a run of exactly 2^32 changes that does |
| `OddCache.WrongIffOdd` | mednafen/intl/dcigettext.c:546-845 | a query for one locale can meet a wrong hit before the counter comes round if and only if no part of the locale is empty and its codeset is not normalised |
| `OddCache.WrongAtOnce` | mednafen/intl/dcigettext.c:767-845 | for each such locale a run of one lookup and no change whose hit is wrong |
| `OddCache.ForInstance` | mednafen/intl/explodename.c:104-121 | de.UTF8 is such a locale |
| `AliasCache.WrongAlias` | mednafen/intl/finddomain.c:91-131 | a run of two lookups and no change whose hit for an alias is wrong: german, an alias of de, once german@x has been looked up |
| `Translator.Library.Translate` | mednafen/intl/dcigettext.c:487-870 | a call takes the hit or makes the full search and stores it, and hands out the plural form or falls back on the msgids |
| `Translator.DeliveredForm` | mednafen/intl/dcigettext.c:577-586 | the string handed out for a hit is the form that the catalog's plural rule picks, or the first one |
| `Translator.Library.Bind` | mednafen/intl/bindtextdom.c:77-316 | binding is a step of the runs above |
| `Translator.Library.TextDomain` | mednafen/intl/textdomain.c:65-124 | sets the default domain and always counts as a change |

## Left out

- Yay0RoundTrip.RoundTrip: for a single input of less than 2^32 bytes whose file is longer than 2^32 it says nothing; `Yay0Wrap.RoundTripIffFits` says for which lengths some such input is lost.
- FontImage.I2Encode: does not model a width below 8 (the source divides by zero) or pictures of more than 2^32 pixels in whole blocks, where the 32-bit offsets wrap; FontImage.I2Decode likewise for a width of 0 and 2^32 pixels or more, which `Fnt.FntToBmp` reports as undefined.
- Dither.DitherFourColour: does not model a zero width, or whole rows of more than 2^32 pixels, where the 32-bit indices wrap.
- MatchSearch.FindLink: the offset is left unset by the source when nothing matches and is 0 here; it is never used then.
- PosixRwLock.AlwaysInv: waiting_writers_count is unbounded here, so it says nothing about 2^32 or more waiting writers; failing pthread calls, and unlocking by a thread that does not hold the lock, are not steps of the runs.
- PosixRwLock.RunsEmpty: no fairness of the scheduler is modelled; it says that the lock can always be run empty, and DrainIsBounded that this takes a bounded number of steps.
- WaitQueue.Queue.Add: count and alloc are unbounded here, so it does not model an allocation size that wraps; the array has length 0 where the source has NULL.
- HandOff.AlwaysInv: does not model the lazy initialisation by the guard, unlocking by a thread that does not hold the lock, or failing waits; a thread stands for its event, so events are taken to be distinct.
- Once.RunsOnce: memory is sequentially consistent; each read or write of a field, and each interlocked operation, is one step.
- Catalog.FindByHash: byte swapping of foreign catalogs and the value of the hash function are not modelled; the function is arbitrary.
- SysdepFill.Load: asks that the fixed text of every string lies inside the file, which the source does not check, and does not model sizes that wrap size_t.
- CatalogList.Domains.Make: only a single directory, as `_nl_find_domain` passes it; directory lists, Windows paths and the size of the successor array (with the bit count that computes it) are not modelled.
- FindDomain.SecondCall: for names that are not aliases.
- LocaleScan.NormalizeCodeset: letters and digits are those of ASCII.
- TranslationCache.Coherent: catalog files, environment, current directory and aliases are fixed. The search tree is a map, justified by TranscmpOrders. For locales that are aliases, or that hold a slash, it says what a wrong hit needs, not when there is one.
- TranslationCache.WrongExactly: asks that no locale, category or domain looked up holds a slash and no codeset a dot, because file names with more slashes can be taken for each other; TranslationCache.Coherent does not ask it. OddCache.WrongIffOdd asks it of its locale.
- Translator.Library.Translate: the list of locales, the text found in a catalog file and the evaluation of plural expressions are given functions; character set conversion, logging of missing messages and failing allocation are left out.
- Tarjan.Finder.StrongConnect: recursion is as deep as it needs to be; the RecursionError that CPython raises at its limit, on a chain of about 1000 nodes, is not modelled.
- The user interface, emulator launching, directory scanning, FreeType rendering, file input and output, the recursive lock, the Pth and Solaris variants, plural expression parsing and the smaller scripts are not part of this model.
