# Verification models

A Dafny model of the parts of this repository in which pointers, buffers, fixed-width arithmetic and concurrency meet, with
proofs about every input, every run or every interleaving. `dafny verify dfyconfig.toml` checks all of it.

- **The uthash table** (`src/include/uthash.h`). `UtHash.dfy` is the table on the heap: elements linked on bucket chains and
  on the application-order list, an array of buckets that doubles in place, cached counters and `tail`, the optional Bloom
  filter. Every operation is proved to move an abstract table (`UtHashModel.dfy`) as the model says; `UtHashTheorems.dfy`
  proves what all runs of the model keep, and that the table is a map, `UtHashOrder.dfy` what operations and runs do to the
  application order and when tables double. `UtHashLinks.dfy` is the in-place merge sort of the
  links, `UtHashSort.dfy` the sort on sequences and its theorem, `UtHashBloom.dfy` the bit array.
- **Integers and Grisu's start in fmt** (`format.h`, `format-inl.h`). `FmtItoa.dfy` is the 4.32 fixed-point formatter,
  `FmtDigits.dfy` the digit counts, the two-digits-at-a-time writer with separators and the overflow-checked parser, `FmtFp.dfy`
  normalization, boundaries, the rounded 64 x 64 product and the scaled bounds. `Decimal.dfy` and `Bits.dfy` hold the
  notions they are measured against.
- **The DM packet receiver and its CRC** (`dm_packet.cpp`, `common_funcs.cpp`). `DmPacket.dfy` is the resumable reader on its
  buffers; `DmReceiver.dfy` the same machine a byte at a time, which `DmFraming.dfy` relates to encoded packets. `Crc.dfy` is
  the table-driven word CRC (table in `CrcTable.dfy`), `CrcTheorems.dfy` its meaning as a polynomial remainder over GF(2) and
  what it detects.
- **The asynchronous log queue and its pool**. `CircularQ.dfy` is the ring buffer, `MpmcQueue.dfy` the queue under its mutex
  with every interleaving of producers and consumers, `ThreadPool.dfy` the pool with its shutdown protocol, `ThreadPoolShutdown.dfy` when
  that ends, `ThreadPoolOrder.dfy` the order in which a single worker handles messages. A section under
  the mutex is one step; a thread that waits takes its step when its condition holds.
- **Whole-run state machines**. `FileHelper.dfy`, `RotatingFileSink.dfy` and `RotationTheorems.dfy` are log rotation over an
  abstract disk; `SendQueue.dfy`, `ReceiveLimit.dfy`, `SocketObject.dfy` and `TcpHandlers.dfy` the per-socket send queue and
  the one-second receive limiter, with the kernel's answers as arbitrary inputs.

Objects whose methods update fields are classes; a method's contract ties its effect to a function on values, and the
theorems are about those functions.

Five things turned out otherwise than the code suggests or its comments say; each is stated exactly:

- `compute_boundaries` is documented to put the lower boundary half way to the previous double; for the smallest normal
  double, and only for it, it does not (`FmtFp.LowerIsHalfWayExactly`).
- A thread pool whose queue has capacity zero never finishes its destructor (`ThreadPoolShutdown.ShutdownEndsExactlyWithRoom`).
- With `rotate_on_open` on a non-empty file the sink keeps the old file's size as the size of the new, empty one until the
  next rotation (`RotationTheorems.SizeIsExactUnlessRotatedOnOpen`).
- The receive counter is 32 bits wide: a window that receives 2^32 bytes can deliver more than the limit, and no smaller one
  can (`ReceiveLimits.CounterWideEnoughIff`).
- `PushMsg` cuts a message's size to 32 bits before it checks it: one of 4 GiB and a few bytes is queued cut short
  (`SocketObjects.TakenWholeIff`).

## Model

| member | source | states |
|---|---|---|
| `UtHashSort.SortIsCorrect` | src/include/uthash.h:877-959 | For every list and every comparator that is a total preorder on its elements, the bottom-up merge sort gives a sorted permutation in which elements that compare equal keep their order. |
| `UtHashSort.SortPermutes` | src/include/uthash.h:877-959 | For every comparator at all, even an inconsistent one, the sort still returns a permutation of the list. |
| `UtHashSort.PassSorts` | src/include/uthash.h:887-949 | A pass over sorted runs of `k` elements leaves sorted runs of `2k`. |
| `UtHashSort.PassIsStable` | src/include/uthash.h:917-932 | A pass keeps the order of the elements that tie with any given one. |
| `UtHashLinks.SortLinks` | src/include/uthash.h:883-956 | The passes over the linked elements end, rewrite `next` and `prev` only, and leave both link directions, the first and the last element those of the sorted list. |
| `UtHashLinks.SortPass` | src/include/uthash.h:887-949 | One pass turns the list into the list of merged pairs of runs, with all links in place; at most one merge is counted exactly when the list had at most two runs. |
| `UtHashLinks.MergeRuns` | src/include/uthash.h:903-945 | The merge of two neighbouring runs appends their stable merge to the output and leaves the rest of the list untouched, the output's last `next` excepted. |
| `UtHashLinks.MergeOne` | src/include/uthash.h:905-943 | One round takes the smaller first element, the left one on ties, from its run, and links it behind the output. |
| `UtHashLinks.TakeRun` | src/include/uthash.h:893-902 | The run starting at `p` has `insize` elements or reaches the end of the list, and `q` is what follows it. |
| `UtHash.UtHash.Sort` | src/include/uthash.h:877-959 | `HASH_SRT` on the heap: a valid table stays valid, the elements are the same, their order is sorted and stable for every total preorder, `head` and `tail` are its ends, and chains, counters and Bloom bits are as before. |
| `UtHashSort.InsertInOrderSorts` | src/include/uthash.h:242-249 | Inserting before the first greater element keeps a sorted list sorted. |
| `UtHashSort.InsertInOrderIsStable` | src/include/uthash.h:242-249 | An element inserted in order comes after all the elements it ties with, whose order does not change. |
| `UtHashModel.CountsSumToItems` | src/include/uthash.h:453-457 | The bucket counts of a table that keeps the invariant sum to the number of items. |
| `UtHashTheorems.RedistributeChooses` | src/include/uthash.h:840-858 | After pushing any sequence of elements onto empty buckets, each bucket holds exactly those that hash to it, latest first. |
| `UtHashTheorems.ExpandSplitsBuckets` | src/include/uthash.h:823-870 | Doubling sends exactly the elements of old bucket `i` whose new index is `b` to new bucket `b`, for `b = i` and `b = i + num_buckets`, and leaves the application order alone. |
| `UtHashTheorems.ExpandKeepsInv` | src/include/uthash.h:823-870 | Doubling keeps the whole representation invariant. |
| `UtHash.ExcessAfterPush` | src/include/uthash.h:846-848 | Pushing one element makes one more element non-ideal exactly when its chain then exceeds the ideal length, so the counter kept while moving is the sum of the excesses at the end. |
| `UtHash.IdealIsCeil` | src/include/uthash.h:836-838 | The shift and the mask compute the quotient rounded up. |
| `UtHash.UtHash.ExpandBuckets` | src/include/uthash.h:823-870 | The in-place doubling, with the counters kept while elements move, ends in the model's closed forms: chains redistributed, ideal length = items over buckets rounded up, non-ideal items = sum of the excesses over it, `expand_mult` = `count / ideal` where the count exceeds it and 0 elsewhere, doubling switched off after two ineffective ones in a row. |
| `UtHash.MoveToBucket` | src/include/uthash.h:844-855 | Moving one element keeps bucket heads, counts, multipliers and both chain links right, and counts it as non-ideal exactly when the chain exceeds the ideal length. |
| `UtHashTheorems.AddKeepsInv` | src/include/uthash.h:267-336 | An addition at any place of the application order, with the doubling it may cause, keeps the invariant. |
| `UtHashTheorems.DeleteKeepsInv` | src/include/uthash.h:371-398 | A deletion keeps the invariant and takes exactly one element out of the application order. |
| `UtHashTheorems.SortKeepsInv` | src/include/uthash.h:877-959 | A sort keeps the invariant whatever the comparator. |
| `UtHash.UtHash.Add` | src/include/uthash.h:315-336 | `HASH_ADD` on the heap: the new element comes last in the application order, the others stay where they are, and the table stays valid. |
| `UtHash.UtHash.AddInOrder` | src/include/uthash.h:267-300 | `HASH_ADD_INORDER` on the heap: the new element stands before the first one greater than it, for every comparator; a list sorted by a total preorder stays sorted, with the new element last among its ties. |
| `UtHash.UtHash.FindInsertionPoint` | src/include/uthash.h:242-249 | The inner loop stops at the first greater element, or runs off the end. |
| `UtHash.UtHash.AddToBkt` | src/include/uthash.h:762-776 | Linking into a bucket and doubling when the bucket reaches `(expand_mult + 1) * 10` and doubling is not switched off. |
| `UtHash.UtHash.MakeTable` | src/include/uthash.h:178-198 | A new table has 32 empty buckets, no items, clear Bloom bits, and doubles. |
| `UtHash.UtHash.AppendList` | src/include/uthash.h:234-240 | Appending through the cached `tail` keeps the application order linked. |
| `UtHash.UtHash.Delete` | src/include/uthash.h:371-398 | `HASH_DELETE` on the heap: the element is taken out of the application order, the others keep theirs; the last element takes the table with it, any other is unlinked from both lists, with `head`, `tail` and the counters following. |
| `UtHash.UtHash.DelInBkt` | src/include/uthash.h:779-792 | Unlinking from a bucket chain refines the model's deletion. |
| `UtHash.UtHash.Find` | src/include/uthash.h:123-133 | `HASH_FIND` returns what a search of the bucket's chain returns, with and without a Bloom filter. |
| `UtHash.UtHash.FindInBkt` | src/include/uthash.h:740-759 | The walk over a chain stops at the first element with the key. |
| `UtHash.UtHash.BloomTest` | src/include/uthash.h:167-174 | The Bloom test reads the bit of the hash value, and never denies that of an element in the table. |
| `UtHashBloom.BitSet` | src/include/uthash.h:161 | Setting a bit sets that bit and no other. |
| `UtHash.UtHash.Replace` | src/include/uthash.h:210-225 | `HASH_REPLACE` on the heap: the element found under the key is handed back and taken out, the others keep their order, the new one comes last; the bucket and Bloom arrays are the old ones or new, so that runs can go on. |
| `UtHash.UtHash.Fsck` | src/include/uthash.h:428-475 | The integrity check of the macro reports a fault exactly when there is one, a wrong backward link, bucket count or number of items, on any table whose forward links can be walked, valid or not. |
| `UtHash.UtHash.ValidIsSound` | src/include/uthash.h:428-475 | On a valid table the walks of the check end and there is no fault to find. |
| `UtHashTheorems.FindIsComplete` | src/include/uthash.h:123-140 | A lookup finds an element with the key exactly when there is one. |
| `UtHashTheorems.FindIsMapLookup` | src/include/uthash.h:123-140 | With unique keys a lookup is a lookup in the map the table represents. |
| `UtHashTheorems.NoHashNoFind` | src/include/uthash.h:129-131 | Skipping the chain is right when no element has the hash value, so the Bloom filter cannot change an answer. |
| `UtHashTheorems.ReplaceIs` | src/include/uthash.h:210-225 | A replacement keeps the invariant and unique keys and is an update of the map. |
| `UtHashTheorems.RunKeepsInv` | src/include/uthash.h:267-398 | Every run of additions, ordered additions, replacements, deletions and sorts, with all doublings, keeps the invariant of the abstract table: every element on exactly one chain, the one of its hash value, no element twice, and 2^log2 chains. |
| `UtHashOrder.AddsKeepOrder` | src/include/uthash.h:234-240 | Plain additions leave the elements in the order of the additions. |
| `UtHashOrder.AddInOrderPlaces` | src/include/uthash.h:242-292 | The ordered addition puts the element before the first greater one, whether or not the list is sorted. |
| `UtHashOrder.OrderedAddsKeepSorted` | src/include/uthash.h:267-300 | Any run of ordered additions to a sorted table leaves it sorted, with the elements added, and ties in the order they came. |
| `UtHashOrder.OrderedAddsAreSortedAdds` | src/include/uthash.h:877-959 | Adding in order to a new table gives the very list that adding at the end and then sorting gives: a stable sort is unique. |
| `UtHashOrder.DoublesExactlyWhenLong` | src/include/uthash.h:772-775 | A table doubles exactly when the chain that grows reaches ten times `expand_mult + 1` and doubling is not given up. |
| `UtHashOrder.ChainStaysShort` | src/include/uthash.h:772-775 | So while doubling is not given up, an addition that does not double leaves its chain shorter than that. |
| `UtHashOrder.FieldsAfterDoubling` | src/include/uthash.h:836-868 | After doubling the ideal length is the least that holds all items, `expand_mult` is how many whole times the ideal a longer chain is, and doubling is given up after two in a row that left more than half of the items beyond the ideal. |
| `UtHash.RunOps` | src/include/uthash.h:428-475 | Every such run on the heap keeps links in both directions, bucket heads and counts, `tail` and the counters right, the integrity check finds no fault after any of its operations, and the table ends as the run of the model does. |
| `UtHashTheorems.RunRefinesMap` | src/include/uthash.h:123-140 | After any such run that adds only absent keys, every lookup answers as the map that the same run of map operations gives. |
| `FmtItoa.LgIsDigitCount` | src/include/spdlog/fmt/bundled/format.h:832-843 | The comparison tree picks the number of digits less one, for every 32-bit number. |
| `FmtItoa.FractionIsAccurate` | src/include/spdlog/fmt/bundled/format.h:866-870 | For every digit count the 4.32 fixed-point fraction is never below the exact quotient and less than one unit of the last digit above it, and no 64-bit product overflows. |
| `FmtItoa.LeadingDigits` | src/include/spdlog/fmt/bundled/format.h:871-875 | A fraction that accurate has exactly the leading digits of the number, at every position. |
| `FmtItoa.NextDigits` | src/include/spdlog/fmt/bundled/format.h:873-878 | Multiplying only the fractional part brings up the digits that come next. |
| `FmtItoa.FirstFraction` | src/include/spdlog/fmt/bundled/format.h:866-870 | The 64-bit computation of the first fraction yields the exact value, below 100 in its whole part. |
| `FmtItoa.WriteFraction` | src/include/spdlog/fmt/bundled/format.h:866-879 | The loop writes the decimal digits of the number and nothing else. |
| `FmtItoa.FormatUint32` | src/include/spdlog/fmt/bundled/format.h:832-883 | `lg` with `decimal_formatter` writes exactly the decimal digits of every 32-bit number, and returns the position behind them. |
| `FmtItoa.WritePair` | src/include/spdlog/fmt/bundled/format.h:851-853 | A pair of table characters is the two digits of the index. |
| `Decimal.TableHoldsPairs` | src/include/spdlog/fmt/bundled/format-inl.h:262-267 | The 200-character table holds the two digits of every number below 100. |
| `Decimal.DigitsDenote` | src/include/spdlog/fmt/bundled/format.h:768 | Digits denote their number and have no leading zero. |
| `Decimal.DigitCount` | src/include/spdlog/fmt/bundled/format.h:767-768 | A number has `k` digits exactly when it lies between the `k - 1`st and the `k`th power of ten, zero having one digit. |
| `FmtDigits.CountDigitsIsRight` | src/include/spdlog/fmt/bundled/format.h:766-774 | Counting digits by leading zeros is right for every 64-bit number, the table index in range; every 32-bit number stays within the table of ten of the 32-bit form. |
| `FmtDigits.EstimateIsClose` | src/include/spdlog/fmt/bundled/format.h:772-773 | `bits * 1233 >> 12` is at most one off for every word length up to 64. |
| `FmtDigits.CountDigitsFallback` | src/include/spdlog/fmt/bundled/format.h:777-790 | The fallback loop returns the number of decimal digits. |
| `FmtDigits.FormatDecimal` | src/include/spdlog/fmt/bundled/format.h:958-983 | The two-digits-at-a-time loop, writing backwards, produces the whole text right before the end it returns and touches nothing else. |
| `FmtDigits.PutDigit` | src/include/spdlog/fmt/bundled/format.h:930-936 | A digit and, after every third one, the separator in front of it. |
| `FmtDigits.TextIsGrouped` | src/include/spdlog/fmt/bundled/format.h:917-939 | With a separator the text is the digits in groups of three from the right. |
| `FmtDigits.TextWithoutSep` | src/include/spdlog/fmt/bundled/format.h:905-913 | Without a separator the text is the decimal digits. |
| `FmtDigits.GroupedLength` | src/include/spdlog/fmt/bundled/format.h:2485-2489 | The caller's size, digits plus one separator per three further digits, is the exact length, so the buffer is filled from start to end. |
| `FmtDigits.OnNum` | src/include/spdlog/fmt/bundled/format.h:2471-2489 | The size counted in advance and the writer with separators together: for every 64-bit number the buffer is exactly the digits in groups of three. |
| `FmtDigits.ParseNonnegativeInt` | src/include/spdlog/fmt/bundled/format.h:1454-1477 | The parser returns the value of the digit run and stops behind it when the value is at most 2^31-1, reports an error exactly when it is larger, stops after a leading zero, and never wraps. |
| `FmtDigits.ParseOfDigits` | src/include/spdlog/fmt/bundled/format.h:1454-1477 | What the parser does to the digits of `n`: `n` when that is at most 2^31-1, the error otherwise. |
| `FmtDigits.FormatThenParse` | src/include/spdlog/fmt/bundled/format.h:958-983 | Formatting a number and parsing the text gives the number back, or the error when it exceeds 2^31-1. |
| `FmtFp.Multiply` | src/include/spdlog/fmt/bundled/format-inl.h:442-451 | The 32-bit-limb product is exactly the 128-bit product divided by 2^64, rounded half up, and no intermediate sum overflows. |
| `FmtFp.Normalize` | src/include/spdlog/fmt/bundled/format-inl.h:401-412 | Normalizing ends, sets the top bit and keeps the value. |
| `FmtFp.UpperIsHalfWay` | src/include/spdlog/fmt/bundled/format-inl.h:414-421 | The upper boundary lies half way to the next double. |
| `FmtFp.LowerIsHalfWayExactly` | src/include/spdlog/fmt/bundled/format-inl.h:414-420 | The lower boundary lies half way to the previous double exactly when the number is not the smallest normal double; the comment in the source claims it always. |
| `FmtFp.SmallestNormalIsOff` | src/include/spdlog/fmt/bundled/format-inl.h:414-420 | The smallest normal double as a witness. |
| `FmtFp.LowerIsSafe` | src/include/spdlog/fmt/bundled/format-inl.h:414-420 | Even there the boundary lies between half way and the number. |
| `FmtFp.ComputeBoundaries` | src/include/spdlog/fmt/bundled/format-inl.h:418-425 | Both boundaries get the exponent at which the upper one is normalized, without overflow and without changing their values. |
| `FmtFp.OneExponent` | src/include/spdlog/fmt/bundled/format-inl.h:744-749 | The normalized number gets the same exponent as the boundaries. |
| `FmtFp.UpperIsInside` | src/include/spdlog/fmt/bundled/format-inl.h:736-737 | With a cached power within half a unit, the upper bound less one unit is below the exactly scaled one. |
| `FmtFp.LowerIsInside` | src/include/spdlog/fmt/bundled/format-inl.h:746-747 | The lower bound plus one unit is above the exactly scaled one. |
| `FmtFp.GrisuStart` | src/include/spdlog/fmt/bundled/format-inl.h:726-749 | The start of the conversion: all scaled numbers share an exponent, both bounds lie strictly inside the exactly scaled interval by less than two units, the scaled number is less than one unit off and between them, and no subtraction wraps. |
| `Crc.StepXor` | src/utilities/common_funcs.cpp:13-56 | The shift-and-subtract step is linear. |
| `Crc.StepInjective` | src/utilities/common_funcs.cpp:64-96 | The step is injective. |
| `Crc.EntryIsEightSteps` | src/utilities/common_funcs.cpp:13-56 | Every entry of the table is eight bitwise steps from its index. |
| `Crc.ByteIsTableStep` | src/utilities/common_funcs.cpp:65-66 | Looking up one byte is feeding its eight bits, most significant first. |
| `Crc.WordIsFourTableSteps` | src/utilities/common_funcs.cpp:65-75 | A word is fed from its last byte to its first. |
| `Crc.GetStm32Crc` | src/utilities/common_funcs.cpp:58-99 | The table-driven loop with its zero-padded last word is the bitwise division of the little-endian words. |
| `Crc.MessageBitAt` | src/utilities/common_funcs.cpp:64-96 | Which bit of the message is taken when: words in order, the last byte of a word first, the most significant bit of a byte first, zeros for the bytes the last word lacks. |
| `Crc.PaddedTail` | src/utilities/common_funcs.cpp:82-84 | The last bytes padded with zeros to a word. |
| `Crc.CrcOfSum` | src/utilities/common_funcs.cpp:64-79 | The CRC of `a` followed by `b` is the CRC of `b` started from that of `a`, for every `a` of whole words. |
| `CrcTheorems.DivisionIsCorrect` | src/utilities/common_funcs.cpp:58-99 | The bitwise division is polynomial division over GF(2): dividend = quotient times the generator of section 3.2.9 of IEEE 802.3, plus the remainder. |
| `CrcTheorems.CrcIsRemainder` | src/utilities/common_funcs.cpp:58-99 | The register form of the CRC is the remainder of the message followed by 32 zeros. |
| `CrcTheorems.ChecksumIsPolynomialRemainder` | src/utilities/common_funcs.cpp:58-99 | The packet checksum, started at all ones, is the remainder of one explicit polynomial, with the quotient as evidence. |
| `CrcTheorems.CrcBitsXor` | src/utilities/common_funcs.cpp:64-96 | The CRC of a difference is the difference of the CRCs. |
| `CrcTheorems.BurstErrorsAreDetected` | src/utilities/common_funcs.cpp:64-96 | Two messages whose bits differ within any 32 consecutive places have different CRCs. |
| `CrcTheorems.WordErrorsAreDetected` | src/utilities/common_funcs.cpp:64-96 | Two messages that differ within one aligned word only have different CRCs. |
| `DmFraming.EncodeIsValid` | src/examples/dm_packet.cpp:40-57 | Every packet that is put together from a payload of at most 8 MiB - 17 bytes is valid and gives the payload back. |
| `DmFraming.ValidIsEncoding` | src/examples/dm_packet.cpp:40-57 | Every valid packet is the encoding of its payload, so validity admits nothing else. |
| `DmFraming.LengthRoundTrip` | src/examples/dm_packet.cpp:84-85 | The little-endian length field reads back what was written. |
| `DmFraming.LengthValue` | src/examples/dm_packet.cpp:84-85 | The length is the four bytes times the powers of 256, the first byte the least. |
| `DmFraming.WordValue` | src/examples/dm_packet.cpp:51-52 | So is the stored checksum. |
| `DmPacketReader.IsDmPacketValid` | src/examples/dm_packet.cpp:40-57 | The four checks of the code together are the validity of the packet. |
| `DmPacketReader.DmPacketRead` | src/examples/dm_packet.cpp:59-122 | A call consumes bytes as the byte-at-a-time receiver does, returns true exactly when that receiver accepts a packet, says how much it consumed, ends on every input, and writes only its own buffers, within bounds. |
| `DmPacketReader.DmPacket.Round` | src/examples/dm_packet.cpp:70-115 | One round of the loop: bytes are consumed, or a delivered packet is dropped and nothing is consumed. |
| `DmPacketReader.DmPacket.TakeHeader` | src/examples/dm_packet.cpp:70-78 | Collecting the header, with the reset on a wrong one. |
| `DmPacketReader.DmPacket.TakeLength` | src/examples/dm_packet.cpp:79-97 | Collecting the length, with the bounds check and the allocation. |
| `DmPacketReader.DmPacket.TakeData` | src/examples/dm_packet.cpp:98-111 | Collecting the rest, with the validation at the end. |
| `DmPacketReader.DmPacket.Reset` | src/examples/dm_packet.h:28-36 | A reset forgets everything received. |
| `DmPacketReader.ReadStream` | src/examples/dm_packet.cpp:59-122 | Chunk independence: for every partition of a stream the packets delivered and the state left are those of the whole stream fed byte by byte. |
| `DmReceiver.FeedOfSum` | src/examples/dm_packet.cpp:69-119 | Feeding two streams one after the other is feeding their concatenation. |
| `DmReceiver.FeedKeepsPartial` | src/examples/dm_packet.cpp:70-111 | What a receiver holds between two bytes is always the beginning of a packet with an admissible length. |
| `DmReceiver.FramingRoundTrip` | src/examples/dm_packet.cpp:83-111 | Round trip: the concatenation of any encoded payloads is received as exactly those packets, in order, with nothing left over. |
| `DmReceiver.AcceptedAreValid` | src/examples/dm_packet.cpp:103-106 | From any state and on any stream, only valid packets of admissible length are delivered. |
| `DmReceiver.SegmentsDeliverValidOnes` | src/examples/dm_packet.cpp:69-119 | Any mixture of four-byte blocks that are no header, headers with a refused length, and packets of the length they claim delivers exactly the valid packets among them, in order, with nothing left over. |
| `DmReceiver.RefusedLengthRecovers` | src/examples/dm_packet.cpp:86-96 | After a length below 16 or from 8 MiB on, all packets that follow are delivered. |
| `DmReceiver.InvalidPacketRecovers` | src/examples/dm_packet.cpp:104-110 | After a packet of the right length that fails the validation, all packets that follow are delivered. |
| `DmReceiver.StoredCrcIsRemainder` | src/examples/dm_packet.cpp:49-54 | The checksum stored in a valid packet is the polynomial remainder of everything before it, from the prescribed start value. |
| `DmReceiver.NoiseSurvivedIff` | src/examples/dm_packet.cpp:70-78 | A valid packet behind noise none of whose four-byte blocks is a header is received exactly when the noise is made of whole blocks; one to three stray bytes lose the packet. |
| `DmReceiver.WordErrorInvalidates` | src/examples/dm_packet.cpp:49-54 | Two packets with the same stored CRC that differ within one aligned word of the covered bytes are not both valid. |
| `DmReceiver.BurstErrorInvalidates` | src/examples/dm_packet.cpp:49-54 | The same for a difference within any 32 consecutive bits of the words as the CRC reads them. |
| `CircularQueue.PushAllKeepsTheNewest` | src/include/spdlog/details/circular_q.h:26-36 | After any pushes the queue holds the newest elements that fit, and the overrun counter counts the others; for every capacity, zero included. |
| `CircularQueue.CircularQ.constructor` | src/include/spdlog/details/circular_q.h:19-23 | A new ring is empty. |
| `CircularQueue.CircularQ.PushBack` | src/include/spdlog/details/circular_q.h:26-36 | The ring, for every wrap-around, refines appending to a bounded list that drops its oldest element when full. |
| `CircularQueue.CircularQ.PopFront` | src/include/spdlog/details/circular_q.h:40-44 | The ring refines taking the oldest element. |
| `CircularQueue.CircularQ.Empty` | src/include/spdlog/details/circular_q.h:46-49 | Empty exactly when there are no elements. |
| `CircularQueue.CircularQ.Full` | src/include/spdlog/details/circular_q.h:51-55 | Full exactly when there are as many elements as the capacity, so that a ring of capacity zero is both empty and full. |
| `MpmcQueue.NothingIsLostUncounted` | src/include/spdlog/details/mpmc_blocking_q.h:35-69 | In every interleaving of producers and consumers: pushes = pops + overruns + elements queued; what left the queue followed by what is in it is what was pushed, in order; the capacity is never exceeded. |
| `MpmcQueue.BlockingIsFifo` | src/include/spdlog/details/mpmc_blocking_q.h:35-43 | With blocking producers only, nothing is overrun, and the consumers get the elements in the order of the enqueue steps. |
| `MpmcQueue.RunIsFifo` | src/include/spdlog/details/mpmc_blocking_q.h:35-69 | The same from any state that keeps the counts. |
| `MpmcQueue.MpmcBlockingQueue.Enqueue` | src/include/spdlog/details/mpmc_blocking_q.h:35-43 | A pass under the mutex appends when there is room and otherwise waits with nothing changed. |
| `MpmcQueue.MpmcBlockingQueue.EnqueueNowait` | src/include/spdlog/details/mpmc_blocking_q.h:46-53 | Appending without waiting, overrunning the oldest element. |
| `MpmcQueue.MpmcBlockingQueue.DequeueFor` | src/include/spdlog/details/mpmc_blocking_q.h:57-69 | The oldest element, or nothing when there is none at the time-out. |
| `ThreadPools.StepKeepsPoolInv` | src/include/spdlog/details/thread_pool.h:141-234 | Every step of clients, workers and destructor keeps the pool invariant. |
| `ThreadPools.TerminatesStep` | src/include/spdlog/details/thread_pool.h:141-158 | Terminates still to be posted, terminates queued and workers that exited always add up to the number of workers. |
| `ThreadPools.OrderStep` | src/include/spdlog/details/thread_pool.h:184-234 | No message is ever queued behind a terminate. |
| `ThreadPools.MessagesBeforeExits` | src/include/spdlog/details/thread_pool.h:204-234 | In every reachable state no message is queued once a worker has exited: all messages posted before the destructor are taken first. |
| `ThreadPools.JoinedMeansDrained` | src/include/spdlog/details/thread_pool.h:141-158 | When the destructor returns, the queue is empty and every message that the clients' steps passed in was handled or overrun, as often as it was posted. |
| `ThreadPools.RunPosts` | src/include/spdlog/details/thread_pool.h:184-194 | The messages recorded as posted are those of the clients' steps, unchanged and in order. |
| `ThreadPools.OneTerminateEach` | src/include/spdlog/details/thread_pool.h:204-234 | No worker takes more than one terminate, and a worker has exited exactly when it took one. |
| `ThreadPoolOrder.OneWorkerHandlesInOrder` | src/include/spdlog/details/thread_pool.h:184-234 | With one worker and blocking posts, what is handled, then what is in hand, then what is queued, are the messages of the clients' steps, in order, in every reachable state; at the end of a shutdown all were handled in order. |
| `ThreadPoolShutdown.ShutdownNeverStuck` | src/include/spdlog/details/thread_pool.h:141-158 | With room for one message the shutdown never deadlocks: some thread can always go on by other than a time-out. |
| `ThreadPoolShutdown.ShutdownLength` | src/include/spdlog/details/thread_pool.h:141-158 | Time-outs aside, no shutdown outlasts its rank, and all shutdowns that end take the same number of steps. |
| `ThreadPoolShutdown.ShutdownEndsExactlyWithRoom` | src/include/spdlog/details/thread_pool.h:141-158 | The destructor can return from a reachable state exactly when the queue capacity is at least one; with capacity zero it blocks for ever. |
| `ThreadPools.ThreadPool.Create` | src/include/spdlog/details/thread_pool.h:124-138 | A pool is made exactly for 1 to 1000 threads; the source throws otherwise. |
| `ThreadPools.ThreadPool.PostAsyncMsg` | src/include/spdlog/details/thread_pool.h:184-194 | Posting appends the very message, blocking or overrunning as asked. |
| `ThreadPools.ThreadPool.PostTerminate` | src/include/spdlog/details/thread_pool.h:145-148 | One pass of the destructor's loop is a step of the machine. |
| `ThreadPools.ThreadPool.TakeMsg` | src/include/spdlog/details/thread_pool.h:204-212 | A worker leaving the wait takes the oldest message or times out, and its loop ends exactly on a terminate. |
| `FileHelpers.SplitIsTheExtension` | src/include/spdlog/details/file_helper.h:125-145 | An extension is split off exactly when the name has a last dot that neither starts nor ends a path component and is not the last character; the parts are then determined. |
| `FileHelpers.SplitRejoins` | src/include/spdlog/details/file_helper.h:125-145 | The two parts put together are the name. |
| `RotatingFileSinks.CalcFilenameInjective` | src/include/spdlog/sinks/rotating_file_sink.h:49-63 | Different indices give different file names, for every base name. |
| `RotatingFileSinks.CalcFilenameKeepsExtension` | src/include/spdlog/sinks/rotating_file_sink.h:47-63 | The number stands in front of the extension when the name has one, and at the end otherwise. |
| `RotatingFileSinks.RotatingFileSink.constructor` | src/include/spdlog/sinks/rotating_file_sink.h:34-45 | Opening the sink, with the rotation of a non-empty file when asked for. |
| `RotatingFileSinks.RotatingFileSink.Rotate` | src/include/spdlog/sinks/rotating_file_sink.h:95-122 | The downward loop of renames and the truncation are the rotation of the model. |
| `RotatingFileSinks.RotatingFileSink.RenameFile` | src/include/spdlog/sinks/rotating_file_sink.h:128-133 | The target is removed and the source gets its name; it fails exactly when the source is missing or is the target itself, which is then gone. |
| `RotatingFileSinks.RotatingFileSink.SinkItem` | src/include/spdlog/sinks/rotating_file_sink.h:71-82 | Writing one record, after a rotation when it would exceed the limit. |
| `RotationTheorems.RotationDropsOnlyTheOldest` | src/include/spdlog/sinks/rotating_file_sink.h:95-122 | A rotation drops the oldest file exactly when its name is needed, which a gap in the numbering prevents, and keeps the rest of the log in order; with no backup files it drops the current one. |
| `RotationTheorems.SinkItAppends` | src/include/spdlog/sinks/rotating_file_sink.h:71-82 | Writing one record appends it to the log, which loses exactly what the rotation, if one is due, drops. |
| `RotationTheorems.LogIsSuffixOfWritten` | src/include/spdlog/sinks/rotating_file_sink.h:71-122 | In every run from any files, the initial contents followed by everything written are exactly what the rotations dropped followed by the concatenation of the files from the oldest to the current one, which is therefore a suffix. |
| `RotationTheorems.NothingDroppedEarly` | src/include/spdlog/sinks/rotating_file_sink.h:95-122 | As long as there are no more rotations than unused backup names, nothing is dropped: the files hold everything written. |
| `RotationTheorems.FilesStaySmall` | src/include/spdlog/sinks/rotating_file_sink.h:71-82 | When no file is too large at the start, no file of the log is ever larger than the limit unless it is one single record. |
| `RotationTheorems.SizeIsExactUnlessRotatedOnOpen` | src/include/spdlog/sinks/rotating_file_sink.h:34-45 | After any run `current_size_` is the size of the current file exactly unless a non-empty file was rotated on opening and no write has rotated since; when that is follows from the initial size and the sizes written. |
| `RotationTheorems.StaleSizeAfterRotateOnOpen` | src/include/spdlog/sinks/rotating_file_sink.h:39-44 | The witness: after rotating a three-byte file on opening, the sink takes the empty new file to hold three bytes. |
| `RotationTheorems.SinkAllElsewhere` | src/include/spdlog/sinks/rotating_file_sink.h:71-133 | No file other than those of the log is touched in any run. |
| `SendQueues.EveryRunKeepsTheStream` | src/socket_manager/socket_object.h:151-187 | For every interleaving of senders and event loop, with every short write: bytes written followed by bytes queued grow by exactly the messages whose steps found fewer than 1000 packets queued, in order and whole, and at most 1000 packets are queued. |
| `SendQueues.SentIsRun` | src/socket_manager/tcp_server.cpp:194-218 | A call of `HandleSend` is a run of writes and pops of that machine. |
| `SendQueues.HandleSendKeepsTheStream` | src/socket_manager/tcp_server.cpp:194-218 | A call of `HandleSend` keeps the stream whole whatever the kernel answers. |
| `SendQueues.SentAfterWrite` | src/socket_manager/tcp_server.cpp:203-206 | Of each write exactly the bytes the kernel took leave the first packet. |
| `SendQueues.SentStopsAtFailure` | src/socket_manager/tcp_server.cpp:207-212 | The first write that takes nothing ends the call, whatever would have come next. |
| `SendQueues.DrainCompletes` | src/socket_manager/tcp_server.cpp:198-215 | While the kernel takes at least a byte at each write, everything queued is sent. |
| `SocketObjects.MsgPacket.constructor` | src/socket_manager/socket_object.h:37-49 | A packet of a size in range copies the bytes; one of any other size has no payload. |
| `SocketObjects.MsgPacket.Reduce` | src/socket_manager/socket_object.h:71-76 | Reducing takes bytes off the front, never more than there are. |
| `SocketObjects.SocketObject.PushMsg` | src/socket_manager/socket_object.h:151-163 | The whole message, its size cut to 32 bits first, is appended to the queue unless 1000 packets are queued, in which case nothing changes and -1 is returned; a size out of range still queues a packet, without payload, and returns 0. |
| `SocketObjects.TakenWholeIff` | src/socket_manager/socket_object.h:37-38 | A message that is taken is taken whole exactly when its size is below 16 MiB before it is cut to 32 bits. |
| `SocketObjects.SocketObject.PopOutPacket` | src/socket_manager/socket_object.h:179-187 | The first packet leaves the queue. |
| `TcpHandlers.HandleSend` | src/socket_manager/tcp_server.cpp:194-218 | The nested loops, for every sequence of kernel answers, move exactly the bytes the kernel took from the queue to the wire. |
| `SocketObjects.SocketObject.SetReceiveBytesLimit` | src/socket_manager/socket_object.h:221-232 | Setting a limit clears the time and leaves the byte count as it was. |
| `SocketObjects.SocketObject.CountReceivedBytes` | src/socket_manager/socket_object.h:240-246 | Counting, with both unsigned wrap-arounds. |
| `ReceiveLimits.WindowAtMostLimit` | src/socket_manager/socket_object.h:240-256 | A counting window whose traffic fits the 32-bit counter delivers at most the limit. |
| `ReceiveLimits.CounterWideEnoughIff` | src/socket_manager/socket_object.h:240-256 | A window keeps to the limit for all traffic of at most `n` bytes exactly when `n` is below 2^32, for every bound on what one read returns, the 1024 bytes of the client included. |
| `ReceiveLimits.WrapDeliversTooMuch` | src/socket_manager/socket_object.h:245 | The witness: 2^32 bytes arriving in one window, in reads of any bounded size, can deliver one byte more than the limit. |
| `ReceiveLimits.AnySecondBelowTwice` | src/socket_manager/socket_object.h:240-256 | In every run with a monotone clock, any half-open interval of 1000 ms gets at most one byte less than twice the limit. |
| `ReceiveLimits.TwiceIsReached` | src/socket_manager/socket_object.h:240-256 | For every limit and every bound on what one read returns there is a run whose interval gets twice the limit less one, so that twice the limit less one is exact. |
| `TcpHandlers.HandleReceive` | src/socket_manager/tcp_client.cpp:109-152 | The read loop passes on exactly the chunks that the limiter delivers, stops at the first overflow, and stops after thirty reads of an ordinary event. |
| `ReceiveLimits.ReceivedExactly` | src/socket_manager/tcp_client.cpp:118-154 | A call receives data from the first read on and stops exactly at an overflow, the last round or a read without data; it fails exactly for an overflow, a closed socket or an error. |
| `ReceiveLimits.CallDelivers` | src/socket_manager/tcp_client.cpp:123-132 | A call passes on all chunks it receives except one that overflows. |
| `ReceiveLimits.CountAllOfSum` | src/socket_manager/tcp_client.cpp:118-132 | Several calls deliver what one call on all their chunks would. |

## Left out

- Memory allocation failures, and the freeing of buckets, tables, packets and buffers.
- `key` and `hashv` of a uthash element are constants of the model's `Handle`: the macros set them when an element is added, and
  the caller may not change them while it is in a table. The arithmetic between an element and its handle is left out with them.
- The hash functions of uthash: the hash is any function of the key.
- uthash's `unsigned` counters are unbounded in the model, which differs only for tables of 2^31 buckets or 2^32 items.
- `HASH_SELECT`, which links its destination without updating `tail`; `HASH_REPLACE_INORDER`, which is the modelled replacement
  followed by the modelled ordered addition; iteration and the string, integer and pointer forms, which only forward.
- `HASH_EMIT_KEY` and the out-of-memory exits.
- `decimal_formatter_null`, which adds a terminating null to the modelled text.
- The unpacking of an IEEE 754 double into an `fp` (`FmtFp.IsDouble` says which pairs it produces), the table of cached powers
  and the choice of its index (`FmtFp.GrisuStart` takes any power within half a unit), and digit generation, which the build
  disables.
- fmt's argument, locale, colour, chrono, range and printf layers, and spdlog's registry, levels, patterns and other sinks.
- DmPacketReader.DmPacketRead: the input buffer may not be one of the packet's own buffers; in the source it never is.
- DmPacketReader.IsDmPacketValid: asks for at least 8 bytes, below which the source reads in front of its buffer; its one caller
  passes at least 16.
- DmPacketReader.ReadStream: the loop over chunks and over what a call leaves unread is a caller's; the repository's example does the same.
- The messages that the DM reader prints.
- MpmcQueue.MpmcBlockingQueue.Enqueue: the mutex, the condition variables and their wake-ups are the atomicity of a step and its guard;
  fairness of the scheduler is not modelled, so progress is stated as the absence of deadlock and a bound on the number of steps.
- `size_t` wrap-around of the ring's size for a capacity of 2^64 - 1, and of the overrun counter.
- ThreadPools.ThreadPool.PostAsyncMsg: no client posts once the destructor runs, which is the duty of whoever owns the pool. What the backend does
  with a message, and the message's level, time and logger, are left out.
- RotatingFileSinks.RotatingFileSink.Rotate: the disk renames whatever is there, so the second attempt after a delay, and the truncation
  and exception after a second failure, are not modelled.
- Failing openings and short writes with their exceptions, flushing, and `size_t` wrap-around of file sizes.
- SocketObjects.SocketObject.PushMsg: what happens later to a queued packet of a size out of range, whose pointers the source leaves
  uninitialized; every later operation asks for a queue without one.
- `PushUdpMsg`, which only adds an address; the boolean results of `HandleSend`, which converts -1 to true and 0 to false.
- SocketObjects.SocketObject.constructor: fields the source leaves uninitialized have arbitrary values.
- TcpHandlers.HandleReceive: the byte limit only; the packet limit is what the UDP server sets. Closing the socket, and the active time it records.
- epoll, eventfd, timerfd, connect, accept, and the life of file descriptors: what `read` and `write` return is any sequence of results.
- The clock: its values are inputs, required not to run backwards where a statement needs that.
