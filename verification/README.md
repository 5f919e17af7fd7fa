# ws-uring core, modelled in Dafny

ws-uring is a WebSocket client. The Rust client drives a single socket through
io_uring: it submits operations, reaps their completions one at a time, and
reacts to each according to the operation it was tagged with. A C
re-implementation of the client rests on a small support library, `stx`. That
library provides an arena allocator, a pool allocator, a growable array and a
length-prefixed string type. This project models:

- `Frame` (`frame.dfy`): the frame encoder of `src/frame.rs`.
  - It writes the header of section 5.2 of RFC 6455: FIN, three clear
    reserved bits, the opcode, an unmasked 7-, 16- or 64-bit payload length.
    The payload follows the header verbatim.
  - It also has the constructors for Binary, Close (with a status code, as in
    section 5.5.1) and Pong frames, and the control-opcode test.
  - A header reader that applies the same three-length rule is the encoder's
    partner. It is used to prove that every encoded frame decodes back to
    itself, whatever bytes follow it.
- `Client` (`client.dfy`): the completion state machine of `src/client.rs`.
  - It covers the submissions each `issue_*` method queues.
  - It covers the `i32` length assertion in front of every receive.
  - It covers `step`'s dispatch on the tag of the next completion (Read,
    Write, Connect, Handshake, Close, and no completion at all).
  - It covers the upgrade request, and the URL and port logic of
    `dns_lookup` and `new`.
  - The ring is a list of submissions and a queue of completions.
  - The frame codec, the HTTP response parser, URL parsing and name
    resolution are function parameters.
- `Mem` (`mem.dfy`): the allocation primitives of
  `c-impl/include/stx/stx/mem.h`.
  - `is_power_of_two`, in both its function and its macro form.
  - The three `align_forward` variants, on 64-bit words with wrap-around.
  - The arena, with its bump cursor, and the pool, with its free list.
  - Addresses are numbers below 2^64, and bitwise AND is defined
    arithmetically.
- `DynArray` (`dyn_array.dfy`): the growable array of
  `c-impl/include/stx/stx/dyn_array.h`. An array is its elements plus its
  capacity.
- `String8` (`string8.dfy`): the strings of `c-impl/include/stx/stx/string8.h`.
  - It covers concatenation, substrings and views, equality and cloning,
    search, split and join.
  - A character-by-character definition of the fields between delimiters,
    `Fields`, is the reference for `string_split` and `string_join`.
- `Wrappers` (`wrappers.dfy`): the `Option` type.

Several functions come in two forms, one with the code as written and one with
the behaviour it evidently intends; "## Findings" lists them. The rest of the
model uses the corrected forms.

## Model

| member | source | states |
|---|---|---|
| Frame.OpValue | src/frame.rs:115-123 | each opcode's wire value fits in four bits, and decoding that value gives the opcode back |
| Frame.IsControl | src/frame.rs:126-128 | Close, Ping and Pong are exactly the opcodes whose wire value has bit 3 set (section 5.5 of RFC 6455) |
| Frame.BeRoundTrip | src/frame.rs:88-101 | a length written as a `w`-byte big-endian field reads back as the same number whenever it fits |
| Frame.BeValueBound | src/frame.rs:88-101 | a `w`-byte big-endian field never denotes 256^w or more, so a read-back length is a `u64` |
| Frame.FirstByte | src/frame.rs:88-91 | the first header byte has FIN equal to the frame's fin flag, the three reserved bits clear, and the opcode in the low nibble |
| Frame.FmtHead | src/frame.rs:88-101 | the header is 2 bytes for payloads under 126 bytes, 126 plus a 16-bit length under 65536, and 127 plus a 64-bit length otherwise; the big-endian field equals the payload length and the mask bit is never set |
| Frame.ParseHead | src/frame.rs:88-101 | reading a header never claims more bytes than the buffer has, and the length it reports fits in 64 bits |
| Frame.HeadRoundTrip | src/frame.rs:88-101 | every header the encoder writes reads back as its fin flag, opcode, payload length and own size, whatever follows it |
| Frame.Encode | src/frame.rs:88-112 | the wire image is the payload behind a header of 2 to 10 bytes whose first byte carries the fin flag and the opcode |
| Frame.Parse | src/frame.rs:104-112 | a decoded frame never occupies more bytes than were given |
| Frame.FrameRoundTrip | src/frame.rs:104-112 | decoding a header followed by its payload gives back the same frame and consumes exactly its bytes, whatever follows |
| Frame.EncodeParses | src/frame.rs:104-112 | an encoded frame on its own decodes back to itself and fills the buffer |
| Frame.New | src/frame.rs:17-23 | the new frame's wire image decodes back to exactly the given fin flag, opcode and payload |
| Frame.BinaryFrame | src/frame.rs:29-35 | `binary` makes a final Binary frame: first byte 0x82, and it decodes back to the payload unchanged |
| Frame.CloseRaw | src/frame.rs:59-65 | `close_raw` makes a final Close frame: first byte 0x88, and it decodes back to the payload unchanged |
| Frame.PongFrame | src/frame.rs:70-76 | `pong` makes a final Pong frame: first byte 0x8A, and it decodes back to the payload unchanged |
| Frame.CloseFrame | src/frame.rs:42-52 | `close` makes a final control Close frame whose payload is the status code as two big-endian bytes followed by the reason |
| Frame.Reserve | src/frame.rs:104-108 | reserving leaves the buffer's contents alone and leaves at least the requested room |
| Frame.Put | src/frame.rs:109-111 | putting bytes appends exactly those bytes |
| Frame.Write | src/frame.rs:104-112 | `write` keeps the earlier contents and appends a header plus the payload; the appended bytes decode back to exactly this frame |
| Frame.AppendedFrame | src/frame.rs:104-112 | a frame encoded after earlier bytes keeps them, decodes back from where they end, and ends with its payload |
| Mem.And | c-impl/include/stx/stx/mem.h:14-16 | a bitwise AND is no larger than either operand |
| Mem.AndPredecessor | c-impl/include/stx/stx/mem.h:14-16 | for positive `x`, `x & (x - 1)` is zero exactly when `x` is a power of two |
| Mem.PredecessorTest | c-impl/include/stx/stx/mem.h:14-16 | `x & (x - 1)` is zero exactly when `x` is 0 or a power of two |
| Mem.IsPowerOfTwoFn | c-impl/include/stx/stx/mem.h:14-16 | the `is_power_of_two` function accepts exactly the powers of two and also 0 |
| Mem.IsPowerOfTwo | c-impl/include/stx/stx/mem.h:96 | the `is_power_of_two` macro accepts exactly the powers of two |
| Mem.AndLowBits | c-impl/include/stx/stx/mem.h:24-26 | masking with `a - 1` for a power of two `a` is the remainder modulo `a` |
| Mem.WordIsPow2 | c-impl/include/stx/stx/mem.h:36-48 | 2^64 is a power of two, so a 64-bit value is its own remainder modulo 2^64 |
| Mem.RoundUpValue | c-impl/include/stx/stx/mem.h:24-31 | rounding up to a multiple adds `a - p % a` when `p` is not already a multiple, and nothing otherwise |
| Mem.RoundUpIsAlignment | c-impl/include/stx/stx/mem.h:18-34 | the rounded-up value is the least multiple of `a` at or above `p` |
| Mem.AlignStep | c-impl/include/stx/stx/mem.h:24-31 | the shared rounding step stays inside a 64-bit word |
| Mem.AlignStepRoundsUp | c-impl/include/stx/stx/mem.h:24-31 | for a power-of-two alignment, the rounding step yields the next multiple of the alignment, modulo 2^64 |
| Mem.AlignStepZero | c-impl/include/stx/stx/mem.h:24-31 | with alignment 0 the rounding step yields 0 |
| Mem.AlignForwardSize | c-impl/include/stx/stx/mem.h:18-34 | `align_forward_size` rounds up to the alignment modulo 2^64; the function form of the assertion lets alignment 0 through, and that gives 0 |
| Mem.AlignForwardUintptr | c-impl/include/stx/stx/mem.h:36-48 | `align_forward_uintptr` does the same on signed longs reinterpreted as 64-bit words |
| Mem.AlignForward | c-impl/include/stx/stx/mem.h:98-113 | `align_forward` rounds up to a power-of-two alignment modulo 2^64; any other alignment fails the macro assertion and is modelled as 0 |
| Mem.ArenaFreeAll | c-impl/include/stx/stx/mem.h:146-150 | freeing everything resets the cursor and the committed count and keeps the buffer |
| Mem.ArenaInit | c-impl/include/stx/stx/mem.h:152-154 | a new arena is valid, covers the given buffer, and is already in the freed-all state |
| Mem.ArenaFree | c-impl/include/stx/stx/mem.h:140-144 | freeing one block leaves the arena unchanged |
| Mem.ArenaAllocAlignedAsWritten | c-impl/include/stx/stx/mem.h:115-130 | with the fit test in wrapping 64-bit arithmetic, the arena stays well formed and the new cursor stays inside the buffer, although the granted block may not |
| Mem.ArenaAllocAsWrittenWraps | c-impl/include/stx/stx/mem.h:115-130 | for a power-of-two alignment and `o` the rounded-up cursor: while `o + size` stays below 2^64 the code as written agrees with the corrected allocator; once it wraps, a request whose wrapped end lies inside the buffer is granted at `base + o`, runs past the end of the buffer, and moves the cursor backwards, and any other request gets NULL |
| Mem.ArenaAllocWrapAccepted | c-impl/include/stx/stx/mem.h:115-137 | a request for 2^64 - 8 bytes passes the wrapped fit test, through `arena_alloc_aligned` and through `arena_alloc` alike, and moves the cursor backwards |
| Mem.ArenaAllocAligned | c-impl/include/stx/stx/mem.h:115-130 | with the corrected fit test, allocation keeps the cursor inside the buffer, returns NULL with the arena unchanged when the block does not fit, and otherwise returns a block that ends at the new cursor |
| Mem.ArenaAlignedOffset | c-impl/include/stx/stx/mem.h:117-119 | the offset computed through the absolute address is the current address rounded up to the alignment, minus the base |
| Mem.ArenaAllocAlignedSpec | c-impl/include/stx/stx/mem.h:115-130 | the block starts at the first aligned address at or after the cursor, and is granted exactly when it fits; the cursor then moves to its end |
| Mem.ArenaAllocationsDisjoint | c-impl/include/stx/stx/mem.h:115-130 | two successful allocations in a row return blocks that do not overlap and lie inside the buffer |
| Mem.ArenaAlloc | c-impl/include/stx/stx/mem.h:132-137 | the corrected `arena_alloc` returns NULL with the arena untouched for size 0, keeps the arena valid, and any block it grants is aligned to `DEFAULT_ALIGNMENT`, starts at or after the cursor and ends inside the buffer |
| Mem.ArenaAllocAsWritten | c-impl/include/stx/stx/mem.h:132-137 | `arena_alloc` as written gives the same result as the corrected one whenever the buffer's end plus the default alignment plus the request stays below 2^64 |
| Mem.ListedTail | c-impl/include/stx/stx/mem.h:229-240 | past the head, the rest of a free list is the list that starts at the head's `next` word |
| Mem.ListedAsUnique | c-impl/include/stx/stx/mem.h:229-240 | the head and the `next` words determine the free list: two readings of the same pool are the same list |
| Mem.ListedWalk | c-impl/include/stx/stx/mem.h:229-240 | following `next` from the head of a free list visits its chunks in order and reaches NULL right after the last |
| Mem.PushedChunks | c-impl/include/stx/stx/mem.h:307-319 | pushing chunks 0 to n-1 in turn leaves chunk n-1 at the head and chunk 0 at the tail |
| Mem.PushedChunksLayout | c-impl/include/stx/stx/mem.h:307-319 | the pushed chunks do not overlap, start on chunk boundaries, and lie wholly inside the buffer |
| Mem.PushedChunksDisjoint | c-impl/include/stx/stx/mem.h:307-319 | the chunks the loop pushes never overlap |
| Mem.PushedChunksInside | c-impl/include/stx/stx/mem.h:307-319 | when the buffer holds `n` chunks, each pushed chunk starts on a chunk boundary and ends inside the buffer |
| Mem.StoreWord | c-impl/include/stx/stx/mem.h:301-303 | storing a word changes the word at that address and no other, and leaves the head alone |
| Mem.StoreKeepsList | include/stx/test/mem_test.h:61-66 | a store into a chunk that is not on the free list leaves the free list as it was |
| Mem.Push | c-impl/include/stx/stx/mem.h:301-304 | a push links the chunk to the old head, makes it the head, and changes no other `next` word |
| Mem.PushChunksLinks | c-impl/include/stx/stx/mem.h:307-319 | after the loop from chunk `i`, the last chunk is the head, chunk `i` links to the head the loop started from, every later chunk links to the chunk just below it, and the words below chunk `i` are untouched |
| Mem.PushChunksOver | c-impl/include/stx/stx/mem.h:307-319 | running the loop again over chunks that already link as the loop links them, from the head it left, changes nothing |
| Mem.PoolFreeAllAsWritten | c-impl/include/stx/stx/mem.h:307-319 | as written, `pool_free_all` makes the last chunk the head, links every other chunk to the one below it, and links chunk 0 to whatever the head was before |
| Mem.CycleNeverEnds | c-impl/include/stx/stx/mem.h:307-319 | when chunk 0 links back to a chunk of the buffer and every other chunk to the one below it, a walk from any chunk never reaches NULL |
| Mem.PoolFreeAllAsWrittenCycles | c-impl/include/stx/stx/mem.h:307-319 | called on a pool whose free list is not empty, `pool_free_all` as written turns the free list into a cycle: the walk from the head never reaches NULL |
| Mem.PoolFreeAllTwiceReusesLiveChunk | c-impl/include/stx/stx/mem.h:269-319 | calling `pool_free_all` twice on a two-chunk pool makes `pool_alloc` hand out the first chunk again while it is still live |
| Mem.PoolFreeAll | c-impl/include/stx/stx/mem.h:307-319 | corrected, the free list becomes exactly the buffer's chunks, each once, the last one at the head |
| Mem.FreshLoopLists | c-impl/include/stx/stx/mem.h:307-319 | the loop run from an empty free list lists the chunks from the last down to the first |
| Mem.PoolFreeAllIdempotent | c-impl/include/stx/stx/mem.h:307-319 | the corrected `pool_free_all` is idempotent |
| Mem.PoolAlloc | c-impl/include/stx/stx/mem.h:269-283 | `pool_alloc` on an empty list yields NULL and changes nothing; otherwise it returns the head, makes the head's `next` word the new head, and zeroes every word stored inside the chunk while leaving all other words alone |
| Mem.PoolAllocTakesChunk | c-impl/include/stx/stx/mem.h:269-283 | an allocation hands out the first chunk of the free list, that chunk is not among the rest, and the rest stays listed |
| Mem.ChunksInPool | c-impl/include/stx/stx/mem.h:289-299 | every chunk of the buffer passes the bounds test of `pool_free`, so each can be freed back |
| Mem.PoolFree | c-impl/include/stx/stx/mem.h:285-305 | `pool_free` ignores NULL and addresses outside the buffer; otherwise the address links to the old head and becomes the head, and no other word changes; it is not checked to be the start of a chunk |
| Mem.PoolFreePushes | c-impl/include/stx/stx/mem.h:285-305 | freeing a chunk that overlaps no free chunk puts it in front of the free list |
| Mem.FreeOnto | c-impl/include/stx/stx/mem.h:285-305 | the same, for a chunk apart from every chunk of the list |
| Mem.PoolLastFreedFirstReused | c-impl/include/stx/stx/mem.h:269-305 | the next allocation after a free returns the freed chunk and leaves the old free list listed again |
| Mem.PoolDoubleFreeLosesList | c-impl/include/stx/stx/mem.h:269-305 | freeing the head a second time makes it link to itself: the next two allocations both return it, and the free list is then empty |
| Mem.AdjustedLength | c-impl/include/stx/stx/mem.h:247-249 | the buffer length after the alignment adjustment stays a 64-bit value |
| Mem.PoolInitAccepts | c-impl/include/stx/stx/mem.h:244-258 | the assertions of `pool_init`, with the function form of `is_power_of_two`, still accept only power-of-two alignments, because alignment 0 makes the chunk size 0 |
| Mem.PoolInit | c-impl/include/stx/stx/mem.h:244-267 | `pool_init` rounds the chunk size up to the alignment, shortens the buffer by the alignment gap but keeps its original start, and frees at least one chunk, each once, laid out from the start |
| Mem.AlignedChunkSize | c-impl/include/stx/stx/mem.h:251-252 | the aligned chunk size is the least multiple of the alignment at or above the requested size |
| Mem.PoolTestAlignment | include/stx/test/mem_test.h:53 | in the pool test with the buffer placed at 4096, the 64-byte chunk and the buffer address are already aligned to 16 |
| Mem.PoolTestInitAligned | include/stx/test/mem_test.h:50-53 | for a buffer at any 16-aligned address, the pool test's initialisation is accepted, keeps all 1024 bytes and lists sixteen 64-byte chunks from the buffer's start |
| Mem.PoolTestInitUnaligned | include/stx/test/mem_test.h:50-53 | for a stack buffer that is not 16-aligned, the initialisation is still accepted, gives up the bytes before the next aligned address and lists fifteen chunks from the unaligned start |
| Mem.PoolTestInit | include/stx/test/mem_test.h:53 | for the buffer placed at 4096, the pool test's initialisation is accepted and yields sixteen 64-byte chunks |
| Mem.PoolAllocThree | c-impl/include/stx/stx/mem.h:269-283 | three allocations in a row return the first three chunks of the free list, in order, and leave the rest listed |
| Mem.PoolAllocSix | include/stx/test/mem_test.h:55-60 | six allocations in a row return the first six chunks of the free list, in order, and leave the rest listed |
| Mem.PoolTestChunks | include/stx/test/mem_test.h:53-60 | for the buffer placed at 4096, the pool test's free list has sixteen chunks; the first six are the top six of the buffer, and the rest lie below them |
| Mem.PoolTestWrites | include/stx/test/mem_test.h:61-66 | for the buffer placed at 4096, the test's writes of 5 through the six pointers leave the free list alone, and the word at `a` reads 5 |
| Mem.PoolTestFrees | include/stx/test/mem_test.h:68-75 | for the buffer placed at 4096, after the test frees `f`, `c`, `b` and `d`, the next allocation returns `d`, the word at `a` still reads 5, and `b`, `c`, `f` head the free list |
| Mem.PoolTestScenario | include/stx/test/mem_test.h:50-75 | in the pool test with the buffer placed at 4096, the first allocation is the last chunk, and after four frees the next allocation returns the last chunk freed while `*a == 5` holds |
| Mem.PoolTestRefrees | include/stx/test/mem_test.h:76-82 | for the buffer placed at 4096, the end of the test: `a` freed is `a` allocated again, and freeing `e`, `a` and `d` puts them in front of the list in reverse order |
| DynArray.ArrayInit | c-impl/include/stx/stx/dyn_array.h:49-64 | `array_init` gives an empty array of the requested capacity exactly when the allocator grants the block, and NULL otherwise |
| DynArray.ArrayNew | c-impl/include/stx/stx/dyn_array.h:19-22 | the `array` macro gives an empty valid array of capacity 16 |
| DynArray.EnsureCapacity | c-impl/include/stx/stx/dyn_array.h:66-80 | the elements are kept, the capacity stays exactly when it exceeds `len + 1` and doubles otherwise, and afterwards slot `len` is in bounds |
| DynArray.Append | c-impl/include/stx/stx/dyn_array.h:30-32 | appending adds `v` after all the old elements and never shrinks the capacity |
| DynArray.Remove | c-impl/include/stx/stx/dyn_array.h:34-45 | removing element `i` shortens the array by one, moves the last element into slot `i`, and keeps every other slot; an index past the end leaves an array of at most one element alone, and drops the last element of a longer one |
| DynArray.RemoveTakesElement | c-impl/include/stx/stx/dyn_array.h:34-45 | removal takes out exactly the element at `i`, as a multiset |
| DynArray.PopBack | c-impl/include/stx/stx/dyn_array.h:47 | popping drops the last element and keeps the rest and the capacity |
| DynArray.PopBackUndoesAppend | c-impl/include/stx/stx/dyn_array.h:30-47 | popping right after an append gives back the old elements |
| DynArray.AppendMany | include/stx/test/dyn_array_test.h:54-62 | any number of appends keeps the array valid |
| DynArray.AppendManyContents | c-impl/include/stx/stx/dyn_array.h:30-32 | `n` appends of `v` keep the old elements and add `n` copies of `v` |
| DynArray.HundredAppends | include/stx/test/dyn_array_test.h:54-62 | the array test's 100 appends give length 100 with the appended value in every slot |
| String8.Concat | c-impl/include/stx/stx/string8.h:35-41 | the concatenation is the first string followed by the second |
| String8.Substring | c-impl/include/stx/stx/string8.h:43-50 | a substring copies the characters from `start` to `end` and is empty when the range is empty or reaches past the end |
| String8.SubstringsConcat | c-impl/include/stx/stx/string8.h:35-50 | cutting a string in two and concatenating the pieces gives it back |
| String8.SubstringOfConcat | c-impl/include/stx/stx/string8.h:35-50 | each operand can be cut back out of a concatenation |
| String8.View | c-impl/include/stx/stx/string8.h:113-118 | a view is empty for a reversed or over-long range, and otherwise shares the characters from `start` to `end` |
| String8.ViewIsSubstring | c-impl/include/stx/stx/string8.h:43-50 | on an in-bounds range a view and a substring hold the same characters |
| String8.MemEql | include/stx/stx/base.h:74-76 | `memeql` holds exactly when the two buffers agree at every compared position |
| String8.Equal | c-impl/include/stx/stx/string8.h:94-99 | `string_equal` holds exactly when the two strings are equal |
| String8.Clone | c-impl/include/stx/stx/string8.h:120-128 | a clone is equal to the original |
| String8.ScanFrom | c-impl/include/stx/stx/string8.h:67-80 | a position the as-written search reports is below the haystack's length and is where the needle's bytes lie in memory, possibly running past the end; an empty needle is never found; when a NUL follows a NUL-free haystack (and an empty needle), the search reads no further and reports only occurrences inside the haystack |
| String8.MatchFrom | c-impl/include/stx/stx/string8.h:71-77 | the inner loop compares `data[i]` of both strings without checking either length: it fails on a read outside readable memory, and a reported start lies at or after its own and is where the needle's bytes lie in memory; for a terminated NUL-free haystack it never reads past the NUL and reports only occurrences inside the haystack |
| String8.MatchInside | c-impl/include/stx/stx/string8.h:71-77 | for a terminated NUL-free haystack and needle, the inner loop's reads stay inside readable memory, and a byte that agrees lies inside the haystack and belongs to a non-empty needle |
| String8.IndexOfAsWritten | c-impl/include/stx/stx/string8.h:67-80 | as written, `string_index_of` may fail on a read past readable memory, or returns `SIZE_MAX`, or an index below the length where the needle's bytes lie in memory; for a terminated NUL-free haystack it does not fail and the index is an occurrence inside the haystack |
| String8.IndexOfReadsPastView | c-impl/include/stx/stx/string8.h:67-92 | searching the view "He" of "Hello" for "Hel" reads the parent's 'l' past the view, returns 0 and yields the view "He", while the corrected search finds nothing |
| String8.IndexOfNullNeedle | c-impl/include/stx/stx/string8.h:67-80 | the `{0}` needle, whose data is NULL, is read at once for any non-empty haystack |
| String8.IndexOfMissesOverlap | c-impl/include/stx/stx/string8.h:67-92 | "ab" occurs in "aab" at 1, but as written the search returns `SIZE_MAX` and the view is empty; the corrected search returns 1 and the view "ab" |
| String8.FirstFrom | c-impl/include/stx/stx/string8.h:67-80 | the corrected scan returns the first occurrence at or after `i`, or `SIZE_MAX` when there is none |
| String8.IndexOf | c-impl/include/stx/stx/string8.h:67-80 | the corrected `string_index_of` returns the first occurrence of a non-empty needle, and `SIZE_MAX` exactly when there is none |
| String8.IndexOfAsWrittenNotEarlier | c-impl/include/stx/stx/string8.h:67-80 | whenever the as-written search reports an occurrence inside the haystack, and always for a terminated NUL-free haystack, it is never earlier than the first occurrence |
| String8.SubstringView | c-impl/include/stx/stx/string8.h:84-92 | on the corrected search, `string_substring_view` is the suffix of the haystack starting at the first occurrence of the needle, and empty when there is none or the needle is empty |
| String8.SubstringViewAsWritten | c-impl/include/stx/stx/string8.h:84-92 | on the search as written, the view fails with the search, or is empty, or is a suffix of the haystack at whose start the needle's bytes lie in memory; for a terminated NUL-free haystack it starts with the needle |
| String8.Fields | c-impl/include/stx/stx/string8.h:130-155 | the reference split always has at least one field |
| String8.FieldsFreeOfDelimiter | c-impl/include/stx/stx/string8.h:130-155 | no field contains the delimiter |
| String8.FieldsOfPlain | c-impl/include/stx/stx/string8.h:130-155 | a string without the delimiter is a single field |
| String8.FieldsAtDelimiter | c-impl/include/stx/stx/string8.h:133-147 | the first delimiter closes the first field |
| String8.SplitLoop | c-impl/include/stx/stx/string8.h:133-148 | the split loop allocates the array exactly when it meets a delimiter, and the last segment starts just after the last delimiter |
| String8.SplitLoopFields | c-impl/include/stx/stx/string8.h:133-148 | the segments the loop appends, followed by the unfinished last one, are exactly the reference fields |
| String8.SplitLoopAtDelimiter | c-impl/include/stx/stx/string8.h:137-146 | at a delimiter the loop appends the segment before it and starts the next segment just after it |
| String8.SplitLoopCuts | c-impl/include/stx/stx/string8.h:137-146 | a delimiter closes the current segment, which then comes first among the fields that remain |
| String8.SplitLoopSkips | c-impl/include/stx/stx/string8.h:135-136 | a byte other than the delimiter only extends the current segment |
| String8.SplitAsWritten | c-impl/include/stx/stx/string8.h:130-155 | as written, `string_split` appends to a never-allocated array exactly when the string has no delimiter and two or more bytes; otherwise it returns an array exactly when the delimiter occurs |
| String8.SplitDropsOneByteTail | c-impl/include/stx/stx/string8.h:150 | "a b" has fields "a" and "b", but as written the split returns only "a" |
| String8.SplitWithoutDelimiterCrashes | c-impl/include/stx/stx/string8.h:130-155 | "Hello" split at a space: as written the last segment is appended to NULL; the corrected split returns the single field "Hello" |
| String8.Split | c-impl/include/stx/stx/string8.h:130-155 | corrected, the split returns an array exactly when the string is not empty; no segment holds the delimiter, and the segments are the reference fields, minus the empty last one when the string ends in the delimiter |
| String8.SplitAsWrittenAgrees | c-impl/include/stx/stx/string8.h:130-155 | with the delimiter present, the two splits agree exactly when the last field is not one byte long; without it, a string of at most one byte gives NULL as written |
| String8.SplitAgreesWithDelimiter | c-impl/include/stx/stx/string8.h:150-153 | with the delimiter present, the two splits differ exactly when the last field is one byte long |
| String8.Join | c-impl/include/stx/stx/string8.h:181-207 | the intended join is as long as the segments plus one delimiter between each pair, and begins with the first segment |
| String8.JoinAsWritten | c-impl/include/stx/stx/string8.h:184-206 | as written, `string_join` reports one byte more than that, and the extra last byte is one the loop never writes |
| String8.JoinFields | c-impl/include/stx/stx/string8.h:130-207 | joining the reference fields with the delimiter gives the string back |
| String8.FieldsOfJoin | c-impl/include/stx/stx/string8.h:130-207 | splitting a join of delimiter-free segments gives the segments back |
| String8.SplitJoinRoundTrip | c-impl/include/stx/stx/string8.h:130-207 | for a non-empty string that does not end with the delimiter, joining its split gives it back |
| String8.FieldsOfTwo | c-impl/include/stx/stx/string8.h:130-155 | two delimiter-free pieces around one delimiter are exactly the two fields |
| String8.SplitOfTwo | c-impl/include/stx/stx/string8.h:130-155 | such a string, with a non-empty second piece, splits into the two pieces |
| String8.SplitAsWrittenOfTwo | c-impl/include/stx/stx/string8.h:130-155 | the code as written splits it the same way when the second piece is longer than one byte |
| String8.HelloWorldConcat | c-impl/include/stx/test/string_test.h:15-19 | the string test: "Hello" and " World!" concatenate to "Hello World!" |
| String8.HelloWorldSplit | c-impl/include/stx/test/string_test.h:20-23 | the string test: "Hello World!" splits at the space into "Hello" and "World!" |
| String8.HelloWorldSplitAsWritten | c-impl/include/stx/test/string_test.h:20-23 | the code as written passes the same test |
| String8.HelloWorldJoin | c-impl/include/stx/test/string_test.h:25-26 | the string test: joining "Hello" and "World!" with a space gives "Hello World!" |
| String8.StringTestViews | c-impl/include/stx/test/string_test.h:28-50 | the string test's substring view "ello", windows "llo" and "World!", equality and clone |
| String8.StringTestViewAsWritten | c-impl/include/stx/test/string_test.h:28-31 | on the search as written, "el" is found at 1 in the literal "Hello" and the view is "ello" |
| String8.JoinAsWrittenOneTooLong | c-impl/include/stx/test/string_test.h:25-26 | the joined string in the test reports 13 bytes where "Hello World!" has 12 |
| Client.AsciiBytes | src/client.rs:67-74 | one byte per character, holding the character's code for ASCII text |
| Client.IssueWriteUnderlying | src/client.rs:160-176 | a send tagged Write on the socket, or a panic when there is no socket |
| Client.IssueWrite | src/client.rs:152-158 | the text is encoded as one frame and sent on the socket; it fails when there is no socket or encoding fails |
| Client.AsI32 | src/client.rs:182 | `len as i32` keeps lengths below 2^31 and stays inside the `i32` range |
| Client.WrapI32 | src/client.rs:182 | the `i32` subtraction wraps into the `i32` range and leaves in-range results alone |
| Client.LengthCheckPasses | src/client.rs:182 | for a buffer length and bump index both below 2^31, the assertion holds exactly when the bump index does not exceed the length |
| Client.LengthCheckSmallBuffers | src/client.rs:182 | for buffers shorter than 2^31 bytes, the length assertion holds whenever the bump index is inside the buffer |
| Client.IssueRecv | src/client.rs:178-199 | a receive into the rest of the buffer, from the bump index on, with a `u32` length; `OOM` when the buffer is full; it succeeds exactly when the length assertion holds and a socket exists |
| Client.IssueRead | src/client.rs:178-199 | `issue_read` adds exactly one Read-tagged submission, or fails with `OOM` when the buffer is full |
| Client.IssueReadCoversRest | src/client.rs:178-199 | for a socket and a buffer under 2^31 bytes, the read covers exactly the unfilled rest of the buffer and changes nothing else |
| Client.IssueClose | src/client.rs:231-244 | `issue_close` submits a Close on the socket and forgets it, or panics when there is none |
| Client.IssueConnect | src/client.rs:201-229 | `issue_connect` closes any old socket first, then submits a Connect on the new socket to the resolved address |
| Client.CreateRequest | src/client.rs:64-75 | the request line and Host header come first, the host sits after "Host: ", and the key is followed by the blank line that ends the request |
| Client.AsciiBytesConcat | src/client.rs:126 | converting to bytes works piece by piece |
| Client.UpgradeRequest | src/client.rs:64-75 | the request is one byte per character of the fixed header text, the host, and the key, plus the closing blank line |
| Client.UpgradeRequestLayout | src/client.rs:64-75 | the request bytes are the fixed header text with the bytes of the host and the key in their places |
| Client.IssueHandshake | src/client.rs:246-269 | the request is sent first, then a Handshake receive is posted; `OOM` leaves the send submitted; it succeeds exactly when there is a socket, room in the buffer, and the length assertion holds |
| Client.OnRead | src/client.rs:107-121 | end of stream resets the bump index and reports no message; otherwise the filled prefix must decode to a message, which is reported with the bump index reset, or the unwraps panic |
| Client.OnConnect | src/client.rs:125-129 | a finished connect sends the upgrade request and posts the handshake receive, or panics on the unwrap |
| Client.OnHandshake | src/client.rs:130-144 | the response must parse; the client is connected exactly when it is "101 Switching Protocols", and any other response is a handshake error |
| Client.Step | src/client.rs:96-150 | no completion gives Idle; a negative result is an IO error with the completion consumed; Write and Close completions give Idle; the other tags go to their handlers |
| Client.StepKeepsBumpAtZero | src/client.rs:107-121 | from an empty buffer, a step that does not panic leaves the bump index at zero |
| Client.DefaultPort | src/client.rs:275-281 | the port `Url::port` reports is kept; when it reports none (no port, or the scheme's default), https and wss get 443 and every other scheme gets 80 |
| Client.DnsLookup | src/client.rs:272-288 | an unparsable URL is `InvalidUrl`, a URL without a host is `NoHost`, and a failed resolution is `ResolveHost`; otherwise the result holds the host and the default port |
| Client.New | src/client.rs:78-94 | `new` panics exactly when the resolved port is 443, propagates lookup errors, and otherwise gives a client with no socket and an empty buffer |
| Client.NewRejectsSecureDefault | src/client.rs:78-83 | a wss or https URL without a port always ends in the port-443 panic once it resolves |
| Client.HandshakeSession | src/client.rs:96-269 | connect, then the upgrade request and the handshake receive, then a "101 Switching Protocols" response gives Connect |

## Left out

- Client.IssueWriteUnderlying: the model takes the bytes of a Write when
  it is submitted. The kernel gets only the pointer `bytes.as_ptr()`
  (src/client.rs:163). `issue_write` frees its `BytesMut` payload when it
  returns (src/client.rs:153-157). The Connect arm of `step` frees the
  request `String` at the end of the arm (src/client.rs:126-128). A send
  that does not finish inside `submit()` would read freed memory. The
  model, like `IssueWrite`, `IssueHandshake` and `OnConnect`, assumes the
  send completes at submission.
- `Client`: io_uring itself is not modelled. Submission queue overflow,
  `submit()` errors and the raw `user_data` boxing are not modelled. Every
  submission is assumed to be accepted.
- `Client`: the socket file descriptor returned by `socket(2)` is a
  parameter, `newFd`. `IoUring::new` failing in `new` is not modelled.
- `Client`: the WebSocket message codec, the HTTP response parser, URL
  parsing and DNS resolution are external crates. They appear as function
  parameters (`encode`, `decode`, `parse`, `parseUrl`, `resolve`).
- `Client`: the random 16-byte key of `create_request` and its Base64
  encoding are not modelled. The key is a parameter.
- Client.AsciiBytes: characters outside ASCII are mapped to their low byte
  rather than to their UTF-8 encoding, because the client only sends ASCII
  request text.
- Client.WrapI32: the `i32` subtraction in the length assertion is modelled
  as wrapping, as in a release build. A debug build would panic on overflow.
- Client.OnRead: `bump_index + res` is not checked for `usize` overflow,
  because `res` is bounded by the buffer length.
- `Frame`: `Frame::is_utf8` is not modelled. It calls the standard library's
  UTF-8 validator.
- `Frame`: `BytesMut` is reduced to its contents plus a capacity, and the
  capacity is bookkeeping only. In bytes 1.x `remaining_mut` is
  `usize::MAX - len`, so the reserve in `write` never triggers and `put`
  grows the buffer itself. The reallocation strategy is not modelled.
- `Mem`: `arena_resize_align` and `arena_resize` are not modelled. They are
  not used by the array, string or pool code.
- `Mem`: the generic `Allocator` vtable is reduced to direct calls of the
  arena and pool functions.
- Mem.PoolAlloc: the `assert(0 && ...)` on an empty free list is modelled as
  returning NULL, as in a build with `NDEBUG`.
- Mem.PoolFree: the `assert(0 && ...)` on an out-of-bounds pointer is
  likewise modelled as a silent return.
- Mem.PoolAlloc: the `memset` of the chunk is modelled only on the words the
  model keeps, the `next` words in `links`. Other chunk contents are not
  part of the model.
- Mem.Link: a word that was never stored reads as 0. The `memory` argument of
  `PoolInit` stands for whatever the buffer held before.
- Mem.StoreWord: a caller's write into a chunk is modelled as one whole word
  at one address. Writes of other widths, or that straddle a chunk start,
  are not modelled.
- Mem.ArenaAllocAsWrittenWraps: describes the code as written only for
  arenas whose buffer end plus the alignment stays below 2^64.
- Mem.ArenaAllocAsWritten: its agreement with `ArenaAlloc` is stated only
  when the buffer end plus 16 plus the request stays below 2^64. Beyond that
  `ArenaAllocAsWrittenWraps` describes it.
- Mem.PoolInitAccepts: a NULL buffer is excluded. The source does not check
  for it, but chunk 0 would then sit at address NULL, which a free list cannot
  hold.
- Mem.PoolTestScenario: the test's stack array is placed at 4096, an
  aligned address; C does not promise that alignment.
  `PoolTestInitAligned` covers every aligned address, and
  `PoolTestInitUnaligned` shows fifteen chunks for the rest. The later steps
  of the test are traced only at 4096.
- Mem.InPool: a helper without its own contract. Its meaning is stated by the
  contracts of `PoolFree` and `ChunksInPool`.
- `DynArray`: allocation failure inside `array_ensure_capacity`'s resize and
  overflow of the doubled capacity are not modelled. The capacity is an
  unbounded number.
- DynArray.PopBack: requires a non-empty array. On an empty array the
  source's `len -= 1` wraps the length to `SIZE_MAX`, which an array of
  elements cannot represent.
- DynArray.Remove: an index at or past the capacity of an array with two or
  more elements makes the copy write outside the block, and index `SIZE_MAX`
  on an empty array wraps the length; both are excluded. The copy into a
  spare slot past the length is not visible in the elements.
- `DynArray`: the alignment argument of `array_align` and the element size
  are not modelled. Elements are values, not bytes.
- `String8`: `string_contains`, `string_replace` and `string_split_view` are
  not modelled. `string_contains` and `string_split_view` follow the same
  loops as `string_index_of` and `string_split`, and `string_replace` is not
  part of this model.
- `String8`: allocation failure of the allocator behind `string_concat`,
  `string_substring`, `string_clone`, `string_split` and `string_join` is not
  modelled. These strings carry no NUL terminator.
- String8.IndexOfAsWritten: the bytes after the haystack and the needle are
  a parameter (`Span.after`), and a read beyond them is a failure. Which
  bytes follow a view or a clone in a running program is not modelled. The
  search is exact only for what is passed in.
- String8.IndexOf: requires the haystack to be shorter than `SIZE_MAX`, so
  that the not-found value cannot also be a position.

## Findings

| source | as written | input that shows it | evidently intended | confidence | as-written member | corrected member |
|---|---|---|---|---|---|---|
| c-impl/include/stx/stx/mem.h:121 | `offset + size > arena->size` is computed in 64-bit unsigned arithmetic and can wrap, in `arena_alloc_aligned` and so in `arena_alloc`; the granted block then runs past the buffer and the cursor moves backwards | arena at 4096 of size 1024 with cursor 16; request 2^64 - 8 bytes aligned to 16 | reject any block that does not end inside the buffer | not executed | Mem.ArenaAllocAsWrittenWraps | Mem.ArenaAllocAlignedSpec |
| c-impl/include/stx/stx/mem.h:307-319 | `pool_free_all` pushes every chunk without first clearing `head`; on a non-empty free list chunk 0 links back into the list, which becomes a cycle | pool of two 64-byte chunks at 4096; `pool_free_all` twice; `pool_alloc` then returns 4160, 4096, 4160, so 4160 is handed out while still live | the free list becomes exactly the buffer's chunks | not executed | Mem.PoolFreeAllAsWrittenCycles | Mem.PoolFreeAllIdempotent |
| c-impl/include/stx/stx/string8.h:68-77 | after a partial match the inner loop has advanced `i`, so the outer loop resumes past the start of an overlapping occurrence; `string_substring_view` inherits this | haystack "aab", needle "ab" | the index of the first occurrence, 1, and the view "ab" | not executed | String8.IndexOfMissesOverlap | String8.IndexOf |
| c-impl/include/stx/stx/string8.h:68-77 | the loops compare `haystack.data[i]` without checking `i` against the length and rely on a NUL after the haystack, yet views carry no terminator (string8.h:82-92); a match may run past a view's end | the view "He" of "Hello" searched for "Hel" returns 0, and the substring view is "He" | `SIZE_MAX`, since "Hel" does not occur in "He" | not executed | String8.IndexOfReadsPastView | String8.IndexOf |
| c-impl/include/stx/stx/string8.h:150 | the last segment is kept only when `start + 1 < s.len`, which drops a last segment of one byte | "a b" split at ' ' | ["a", "b"] | not executed | String8.SplitDropsOneByteTail | String8.SplitJoinRoundTrip |
| c-impl/include/stx/stx/string8.h:150-153 | the array is allocated only at a delimiter, yet the last segment is appended whenever it is longer than one byte, so without a delimiter `array_append` reads the header in front of NULL | "Hello" split at ' ' | the single segment "Hello" | not executed | String8.SplitWithoutDelimiterCrashes | String8.Split |
| c-impl/include/stx/stx/string8.h:186 | each segment is counted with `+ 1`, so the reported length has one byte more than the delimiters need, and that byte is never written | ["Hello", "World!"] joined with ' ' has length 13 | length 12, "Hello World!" | not executed | String8.JoinAsWrittenOneTooLong | String8.JoinFields |
