# Verified models of a user-space TCP/IP stack and its packet tools

This project models the parts of the repository where most of the arithmetic, state and
interleaving is, and proves what they promise. `dafny verify dfyconfig.toml` checks all of it.
Each module follows one component of the source:

- **Printing and reading numbers** (`CTypes`, `Output`, `Decimal`, `Number`, `Text`, `Format`,
  `Vsnprintf`, `Directives`, `Printed`, `Kstrtox`, `RoundTrip`, `Ip6`): `stack_and_service/lib/vsprintf.c` and `kstrtox.c`.
  The methods write into a character array at a position that may lie past its usable end. `Shown` says
  what a buffer looks like after a text has been sent to it; `Dec` and `Digits` are plain positional
  notation; `Layout` is the padded field `number` is meant to print; `Render` reads a format once,
  directive by directive, while the code reads it with a resumable decoder; `Numeral` is the grammar
  the readers accept. `Printed` says what each kind of directive prints in terms of how it is written
  and what its argument is, without the decoder's flags and kinds.
- **Bitmaps** (`Words`, `Binary`, `Bitmaps`, `FindBit`, `BitmapShift`, `BitmapArea`, `BitmapOrd`,
  `BitmapRegion`): `stack_and_service/lib/bitmap.c` and `find_next_bit.c`, on arrays of 64-bit words.
  `Has` gives a bitmap its meaning as a set of positions; every contract is stated on positions, every
  body works on words and masks. The shifts are repeated doubling and halving; a shift by the whole width
  of a word gives 0. `Binary` ties the masks of a power of two to remainders.
- **The socket queues** (`AppGlue`, `Tailq`): `stack_and_service/porting/app_glue.c`. Sockets are objects with
  the four membership flags and the references the glue holds. The four lists are fields of the
  object that stands for the module's globals. What a user callback or the stack does in the middle of a
  drain is any sequence of events and calls. `Drain`, `Apply` and `Gain` say on values what happens
  to the lists, `Stays` and `Fate` which callbacks leave a socket on its list. `Tailq` has the pointers
  of a tail queue and its insertion and removal.
- **Three cores** (`Pipeline`): `dpdk-16.07/app/test-pipeline/runtime.c` as a state machine over the
  atomic actions of the RX, worker and TX cores, in any interleaving, on bounded first-in first-out
  rings. The number of ports is even; for the powers of two the program insists on, the masks of its
  loops are the remainder and the neighbour that the model uses.
- **Segmented copies** (`CopySplit`): `mbuf_copy_split` and `pkt_copy_split` of
  `dpdk-16.07/app/test-pmd/csumonly.c`, on mbufs linked by `next` and a pool that counts what is in
  use. `Split` says on values how a packet is cut.
- **Fast forms of standard computations** (`Sha1`, `Sha1Example`, `Checksum`): `stack_and_service/lib/sha1.c` against
  FIPS 180-4, and the Internet checksums of `flowgen.c`, `txonly.c` and `icmpecho.c` in
  `dpdk-16.07/app/test-pmd` against RFC 1071 and RFC 1624.

Inputs the code gets from elsewhere are parameters: the text `pointer()` prints for `%p` (`PointerText`),
the outcome of each allocation, the packets a burst brings in and how many a port takes, the connection
state a socket callback looks at, and the actions of callbacks.

Where the code does something its documentation or its evident purpose does not say, the model follows
the code and the difference is a theorem:

- `number` keeps the field width in 16 bits. It lays the field out as asked if and only if that counter
  does not wrap, which takes a precision of more than about 32700 or a width of that size that has
  wrapped already (`NumberTextIsLayout`, `NumberTextTooLong`, `LongestPrecision`); `string` has one such
  width (`StringTextIsLayout`), `%c` has one or two (`CharTextIsLayout`).
- `kstrtoll` refuses "-0" (`MinusZeroIsRejected`).
- `process_rx_ready_sockets` removes a socket from the closed or accept list after the user's callback
  has run on it. The socket is still there if and only if the last action of the callback that
  concerns it put it there (`StaysExactly`); a caller can tell from the script alone (`FatalCallback`,
  `AcceptCallback`) but for two kinds of script whose outcome hangs on the other sockets
  (`UnsureIsUnsure`). Closing the socket inside its own callback is the plain failing case
  (`CloseInsideFatalCallback`). What such a removal does to the pointers is harmless if and only if the
  former neighbours are together or both gone (`RemoveAgain`); otherwise it can lose another socket
  (`LosesAnother`).
- `app_glue_get_next_reader` and `app_glue_get_next_writer` leave the length counters above the list
  lengths by exactly the number of sockets handed out (`Run`), and the `get_next` functions and
  `app_glue_close_socket` leave the list's reference behind, which the account of `References` gives exactly.
- A packet of `pkt_copy_split` whose last segment would need more than 65535 bytes is not copied, because
  its length is kept in 16 bits (`ChosenLengths`, `TooLongForLast`).
- An RX ring that cannot hold a burst on top of packets too few for the worker stops RX for good
  (`Stuck`, `StuckExample`); with the room `Roomy` asks for every full burst gets out (`EveryBurstGetsOut`).
- The tailroom test of `pkt_copy_split` has no effect for the first segment (`FirstRoomUnchecked`,
  `CopyFits`).
- Turning an echo request whose identifier, sequence number and data are all zero into a reply yields
  a checksum that is not valid (`PatchKeepsValid`, `AllZeroRequest`).
- The multicast test of the echo responder takes only a first octet of 224. A request to 225 to 239 is
  answered from that multicast address (`ReplyHeader`).
- `bitmap_remap` and `bitmap_onto` with a map as destination copy the source, or set nothing (`Remap`, `Onto`).
- `bitmap_pos_to_ord` returns -1 for a clear position, where an example in its comment says 0.

## Model

The rows go by component; the main results of each come first.

| member | source | states |
|---|---|---|
| `Decimal.PutDecChunked` | stack_and_service/lib/vsprintf.c:277-312 | the division-free algorithm prints the same string as the first one, for every 64-bit number |
| `Decimal.PutDecGeneric` | stack_and_service/lib/vsprintf.c:231-241 | the first algorithm prints the digits of every 64-bit number |
| `Decimal.Tenth32` | stack_and_service/lib/vsprintf.c:133-175 | the 32-bit reciprocal of ten is exact below 1073741829, the bound documented for it |
| `Decimal.Tenth16` | stack_and_service/lib/vsprintf.c:183-208 | 0x199a >> 16 divides by ten exactly below 16389 |
| `Decimal.Tenth15` | stack_and_service/lib/vsprintf.c:249-259 | 0xccd >> 15 divides by ten exactly below 16389 |
| `Decimal.Tenth11` | stack_and_service/lib/vsprintf.c:133-175 | 0xcd >> 11 divides by ten exactly below 1029 |
| `Decimal.TenThousandth` | stack_and_service/lib/vsprintf.c:261-275 | 0x346DC5D7 >> 43 divides by 10000 exactly for all x below 1,128,869,999 |
| `Decimal.ReciprocalsAreTight` | stack_and_service/lib/vsprintf.c:133-175 | each of the four bounds for division by ten is the best possible: at the bound the quotient is wrong |
| `Decimal.PutDecFull9` | stack_and_service/lib/vsprintf.c:131-175 | for every number of at most nine digits, exactly nine digits, least significant first, leading zeros included; nothing else in the buffer changes |
| `Decimal.PutDecTrunc8` | stack_and_service/lib/vsprintf.c:178-208 | the decimal digits of the number, no superfluous zero, and the advanced pointer |
| `Decimal.PutDecFull4` | stack_and_service/lib/vsprintf.c:247-259 | exactly four digits |
| `Decimal.PutDecHelper4` | stack_and_service/lib/vsprintf.c:261-275 | prints the four lowest digits of x and returns the rest of x |
| `Decimal.GroupBounds` | stack_and_service/lib/vsprintf.c:261-267 | no group sum exceeds 1,125,520,955, and the all-ones number reaches it, as documented |
| `Decimal.GroupValues` | stack_and_service/lib/vsprintf.c:290-304 | the three group sums and the remaining number are congruent to the decimal groups of n, carries included |
| `Decimal.DropTrailingZeros` | stack_and_service/lib/vsprintf.c:308-309 | stepping back over zeros leaves exactly the digits of n and never passes its first digit |
| `Number.PutNumber` | stack_and_service/lib/vsprintf.c:382-505 | the pointer advance and the text sent do not depend on end, and exactly the part of the text before end is stored |
| `Number.NumberTextIsLayout` | stack_and_service/lib/vsprintf.c:382-505 | for every width: the text is sign, prefix, zeros and digits padded to the field width on the side asked for, if and only if the 16-bit width counter does not wrap |
| `Number.NumberTextTooLong` | stack_and_service/lib/vsprintf.c:445-504 | exactly where the counter wraps the text is longer than the field asked for |
| `Number.LongestPrecision` | stack_and_service/lib/vsprintf.c:445-504 | a failing input: "%.32767d" of 0 |
| `Number.NumToStr` | stack_and_service/lib/vsprintf.c:316-340 | all decimal digits, most significant first, when they fit; otherwise 0 is returned and the buffer is untouched |
| `Number.GenerateDigits` | stack_and_service/lib/vsprintf.c:421-443 | the 66-byte tmp[] is enough and receives the digits of every 64-bit number in base 8, 10 or 16 |
| `Text.StringTextIsLayout` | stack_and_service/lib/vsprintf.c:507-536 | %s prints the clipped string padded to the width, except for a right-justified string in the one 16-bit width that wraps |
| `Text.PutString` | stack_and_service/lib/vsprintf.c:507-536 | like PutNumber, for %s |
| `Text.CharTextIsLayout` | stack_and_service/lib/vsprintf.c:1690-1711 | for every width: %c prints one character padded to the width if and only if neither of its two 16-bit loops wraps |
| `Text.PutCharacter` | stack_and_service/lib/vsprintf.c:1690-1711 | like PutNumber, for %c |
| `Format.Decode` | stack_and_service/lib/vsprintf.c:1420-1597 | a call of the decoder stays within the format and consumes nothing only after a width or precision argument, and then never leaves another such argument pending: the termination measure of the loop |
| `Format.FormatDecode` | stack_and_service/lib/vsprintf.c:1420-1597 | the decoder with its two resumption points computes Decode |
| `Printed.IntegerPrinted` | stack_and_service/lib/vsprintf.c:1420-1791 | every integer directive, however its flags, width, precision and qualifier are written: it prints the value of its type that is congruent to the argument, with sign, prefix, zeros and digits, left-justified exactly with a minus flag or a negative width argument, zero-filled exactly with a zero flag; unless the 16-bit width wraps, which is said exactly, and then the text is too long |
| `Printed.PrintedIsRead` | stack_and_service/lib/vsprintf.c:1420-1791 | %d, %i, %u, %o, %x, %X with each of the nine qualifiers are undone by the reader for their base, for every argument |
| `Printed.StringPrinted` | stack_and_service/lib/vsprintf.c:1420-1791 | %s: the argument cut to the precision and filled to the width, (null) for pointers below 0x400 |
| `Printed.CharPrinted` | stack_and_service/lib/vsprintf.c:1420-1791 | %c: the low byte of its argument filled to the width |
| `Printed.PointerPrinted` | stack_and_service/lib/vsprintf.c:1420-1791 | %p: what the pointer printer makes of argument, field and the text that follows; letters and digits after the p are passed over |
| `Printed.PercentPrinted` | stack_and_service/lib/vsprintf.c:1420-1791 | %% prints a percent sign and takes no argument, %n prints nothing and takes one |
| `Printed.UnknownPrinted` | stack_and_service/lib/vsprintf.c:1420-1791 | an unknown conversion, or the end of the format, prints the percent sign and nothing of the flags; a star at the end prints nothing |
| `Printed.PlainPrinted` | stack_and_service/lib/vsprintf.c:1420-1451 | text outside directives is copied |
| `Vsnprintf.FormatInto` | stack_and_service/lib/vsprintf.c:1644-1803 | for every format, argument list and size, INT_MAX on a smaller buffer included if the text and its NUL fit: terminates, never reads past the NUL of the format, returns the length of the unbounded text as an int, stores exactly its prefix and a NUL, and touches nothing else; a size that is negative as an int is refused |
| `Vsnprintf.OnePass` | stack_and_service/lib/vsprintf.c:1664-1791 | each pass of the loop prints the next part of the one-pass text and leaves the rest of it pending |
| `Vsnprintf.DirectiveDecoded` | stack_and_service/lib/vsprintf.c:1420-1791 | reading a directive token by token, with the arguments fetched in between, is reading it in one pass |
| `Vsnprintf.Send` | stack_and_service/lib/vsprintf.c:1670-1790 | the switch sends the text of the token, whatever the room, and consumes its argument |
| `Vsnprintf.FormatCounted` | stack_and_service/lib/vsprintf.c:1821-1832 | the number of characters of the text that fit into the size the printer works with (the buffer is cut at the top of memory), not counting the NUL |
| `Vsnprintf.LongerBufferExtends` | stack_and_service/lib/vsprintf.c:1644-1803 | a larger buffer receives an extension of what a smaller one receives |
| `Kstrtox.AcceptsExactlyNumerals` | stack_and_service/lib/kstrtox.c:90-108 | _kstrtoull succeeds if and only if the string is a well-formed numeral below 2^64, with its value |
| `Kstrtox.UnsignedAccepts` | stack_and_service/lib/kstrtox.c:110-131 | kstrtoull: the same, perhaps after one plus sign and never after a minus sign |
| `Kstrtox.RefusedAsRange` | stack_and_service/lib/kstrtox.c:90-108 | -ERANGE exactly for the strings that begin with a numeral of 2^64 or more, whatever follows; the others that are refused get -EINVAL |
| `Kstrtox.DigitsOfNumerals` | stack_and_service/lib/kstrtox.c:58-68 | the digits of a numeral are 0-9, a-f and A-F with these values |
| `Kstrtox.SignedAccepts` | stack_and_service/lib/kstrtox.c:150-171 | kstrtoll succeeds if and only if the string is a numeral below 2^63, perhaps after a plus sign, or a minus sign and a numeral from 1 to 2^63 |
| `Kstrtox.NarrowAccepts` | stack_and_service/lib/kstrtox.c:222-325 | the narrow readers accept exactly the numerals in the range of their type, with the signs of the wide ones |
| `Kstrtox.ParseInteger` | stack_and_service/lib/kstrtox.c:51-88 | the digit count, the value modulo 2^64, and the overflow bit exactly when the value is at least 2^64, for digit runs shorter than 2^31 |
| `Kstrtox.LazyCheck` | stack_and_service/lib/kstrtox.c:51-88 | checking for overflow only once the accumulator has reached 2^60 misses no overflow and reports none that is not there |
| `Kstrtox.ReadUnsigned` | stack_and_service/lib/kstrtox.c:90-131 | the reader with its radix, overflow, empty and trailing-text errors, for every string whose digit run is shorter than 2^31 |
| `Kstrtox.NumeralIsRead` | stack_and_service/lib/kstrtox.c:27-108 | a numeral is split into prefix, digits and newline, and read as its value or refused with ERANGE |
| `Kstrtox.ReadSigned` | stack_and_service/lib/kstrtox.c:150-171 | kstrtoll with its sign handling and range tests |
| `Kstrtox.MinusZeroIsRejected` | stack_and_service/lib/kstrtox.c:150-171 | "-0" is refused with ERANGE although "0" is accepted |
| `RoundTrip.PrintThenRead` | stack_and_service/lib/vsprintf.c:1644-1803 | every 64-bit number printed with %lld is read back by kstrtoll |
| `RoundTrip.DigitsRead` | stack_and_service/lib/vsprintf.c:421-443 | the digits printed for n have the value n, and only zero starts with a zero |
| `RoundTrip.DigitsCase` | stack_and_service/lib/vsprintf.c:421-443 | digits are in lower case exactly if asked for, and only zero begins with a zero |
| `RoundTrip.UnsignedRoundTrip` | stack_and_service/lib/vsprintf.c:382-505 | unpadded unsigned output in base 8, 10 or 16 is read back by kstrtoull with base 0 |
| `RoundTrip.SignedRoundTrip` | stack_and_service/lib/vsprintf.c:382-505 | unpadded signed output is read back by kstrtoll with base 0, INT64_MIN included |
| `RoundTrip.NumToStrRoundTrip` | stack_and_service/lib/vsprintf.c:322-340 | num_to_str output is read back |
| `Ip6.TextIsRead` | stack_and_service/lib/vsprintf.c:880-960 | a reader of section 2.2 of RFC 4291 recovers every address, wherever zeros are elided and with an IPv4 tail or without |
| `Ip6.Ip6CompressedString` | stack_and_service/lib/vsprintf.c:879-960 | for every address: the text fits its 46-byte buffer with its NUL and is read back as the address; it has dots exactly for ::ffff:0:0/96 and the two ISATAP forms; it elides exactly the run of FindRun, with exactly the other fields, all in shortest lower-case form |
| `Ip6.FindRun` | stack_and_service/lib/vsprintf.c:903-918 | the leftmost of the longest runs of at least two zero groups, or none (sections 4.2.2 and 4.2.3 of RFC 5952) |
| `Ip6.PutGroup` | stack_and_service/lib/vsprintf.c:934-948 | a group in shortest lower-case hexadecimal (sections 4.1 and 4.3 of RFC 5952) |
| `Ip6.Ip4String` | stack_and_service/lib/vsprintf.c:829-877 | dotted decimal: four fields that are read as the octets in the order the format asks for, all of three digits or all without leading zeros, at most 15 characters |
| `Words.ShlBit` | stack_and_service/lib/bitmap.c:119-189 | a left shift by 0 to 64 moves every bit up |
| `Words.ShrBit` | stack_and_service/lib/bitmap.c:119-189 | a right shift by 0 to 64 moves every bit down |
| `Words.MaskedBits` | stack_and_service/lib/bitmap.c:119-189 | the word masks keep or set exactly the bits on one side of a position |
| `Bitmaps.FirstIsUnique` | stack_and_service/lib/find_next_bit.c:26-109 | the position a search looks for is unique |
| `FindBit.FindNextBit` | stack_and_service/lib/find_next_bit.c:26-63 | the least set position at or after offset, else size |
| `FindBit.FindNextZeroBit` | stack_and_service/lib/find_next_bit.c:72-109 | the least clear position at or after offset, else size |
| `FindBit.FindFirstBit` | stack_and_service/lib/find_next_bit.c:117-137 | the least set position, else size |
| `FindBit.FindFirstZeroBit` | stack_and_service/lib/find_next_bit.c:143-163 | the least clear position, else size |
| `BitmapShift.ShiftRight` | stack_and_service/lib/bitmap.c:109-148 | every position moves down, positions at or past bits count as clear, unused bits of the result are clear, also when dst and src are the same array |
| `BitmapShift.ShiftLeft` | stack_and_service/lib/bitmap.c:152-189 | every position moves up, with the same guarantees, in place included |
| `BitmapShift.RightThenLeft` | stack_and_service/lib/bitmap.c:119-189 | shifting down and up again loses only what fell off |
| `BitmapArea.FindNextZeroArea` | stack_and_service/lib/bitmap.c:326-360 | terminates with the least aligned position from start on whose nr positions are clear and fit, or a value above size exactly when there is none |
| `BitmapArea.BitmapSet` | stack_and_service/lib/bitmap.c:284-302 | sets exactly the positions of the range |
| `BitmapArea.BitmapClear` | stack_and_service/lib/bitmap.c:305-323 | clears exactly the positions of the range |
| `BitmapArea.AlignUpIsMask` | stack_and_service/lib/bitmap.c:326-360 | (x + mask) & ~mask, for a mask of ones, is the least multiple of mask + 1 from x on |
| `BitmapOrd.RemapThereAndBack` | stack_and_service/lib/bitmap.c:829-848 | a subset of old survives bitmap_remap to an equal-weight new and back |
| `BitmapOrd.FoldThenOnto` | stack_and_service/lib/bitmap.c:889-1040 | folding by the weight of relmap and mapping onto it sets n exactly when n is in relmap and some position of orig is congruent to its ordinal |
| `BitmapOrd.RemapRoundTrip` | stack_and_service/lib/bitmap.c:877-886 | for maps of equal weight, remapping a position and back is the identity |
| `BitmapOrd.BitmapWeight` | stack_and_service/lib/bitmap.c:270-281 | the number of set positions below bits |
| `BitmapOrd.RankSelect` | stack_and_service/lib/bitmap.c:743-795 | from a set position to its ordinal and back |
| `BitmapOrd.PosToOrd` | stack_and_service/lib/bitmap.c:726-759 | the ordinal of a set position, -1 for others; the BUG_ON cannot fire |
| `BitmapOrd.OrdToPos` | stack_and_service/lib/bitmap.c:761-795 | the position of an ordinal, 0 if there is none |
| `BitmapOrd.BitRemap` | stack_and_service/lib/bitmap.c:850-886 | one position of the remapping |
| `BitmapOrd.RemappedTo` | stack_and_service/lib/bitmap.c:850-886 | the n-th set position of old goes to the set position of new with ordinal n modulo the weight of new; all others stay |
| `BitmapOrd.Remap` | stack_and_service/lib/bitmap.c:797-848 | exactly the pointwise image under bitmap_bitremap; where dst is also one of the maps it is only a copy of src, because the map is cleared first; nothing happens where dst is src |
| `BitmapOrd.Onto` | stack_and_service/lib/bitmap.c:889-1015 | position n is set exactly when n is in relmap and orig has its ordinal; nothing is set where dst is also relmap |
| `BitmapOrd.Fold` | stack_and_service/lib/bitmap.c:1018-1040 | the image under i modulo sz |
| `BitmapRegion.Serve` | stack_and_service/lib/bitmap.c:1133-1181 | every sequence of requests from an empty bitmap: the live regions are those the requests ask for, one after the other (the lowest unused one for a search, the given one if unused, one less for a release); they are disjoint and their union is what is set |
| `BitmapRegion.FindFreeRegion` | stack_and_service/lib/bitmap.c:1119-1144 | the lowest free aligned region, allocated; -ENOMEM exactly when every aligned region has a set position |
| `BitmapRegion.RegOp` | stack_and_service/lib/bitmap.c:1067-1117 | tests, sets or clears exactly the positions of an aligned region |
| `BitmapRegion.AllocateRegion` | stack_and_service/lib/bitmap.c:1163-1181 | -EBUSY exactly when some position is set, and then nothing changes |
| `BitmapRegion.ReleaseRegion` | stack_and_service/lib/bitmap.c:1148-1161 | clears exactly the region |
| `BitmapRegion.AllocationKeepsLive` | stack_and_service/lib/bitmap.c:1133-1181 | allocating keeps the live regions disjoint and the set positions their union |
| `BitmapRegion.ReleaseKeepsLive` | stack_and_service/lib/bitmap.c:1158-1161 | so does releasing a live region |
| `AppGlue.Glue.Run` | stack_and_service/porting/app_glue.c:302-617 | every run of events, drains, get_next calls and closes, whatever the callbacks do, keeps: flag set exactly for sockets on the list, once each; an exact account of references and counters, which exceed the lists by exactly the sockets get_next has handed out; it runs to its end if and only if every fatal and accept callback leaves its socket on its list; and the calls of the user are those of RunQueues, see EveryPassServes |
| `AppGlue.EveryPassServes` | stack_and_service/porting/app_glue.c:302-360 | each operation of a run calls the user for the right sockets: with exact counters and callbacks that only raise events, a write pass serves the whole write list in order, a read pass the read list the first two loops leave, and what is left is what has been queued again |
| `AppGlue.ClosedInOrder` | stack_and_service/porting/app_glue.c:307-314 | the closed loop calls the user for the sockets on its list, in order, before any that join later, unless a callback closes or hands out |
| `AppGlue.AcceptedInOrder` | stack_and_service/porting/app_glue.c:315-322 | the same for the accept loop |
| `AppGlue.RaisePuts` | stack_and_service/porting/app_glue.c:71-180 | which list each event puts which socket on, and when |
| `AppGlue.NextTakes` | stack_and_service/porting/app_glue.c:495-569 | each get_next call takes the first socket off its own list and changes no other |
| `AppGlue.CloseTakesOff` | stack_and_service/porting/app_glue.c:580-617 | a close without pending connections takes the socket off all four lists, keeps the order of the others, and leaves one reference behind for each list |
| `AppGlue.CloseWithPending` | stack_and_service/porting/app_glue.c:580-617 | with pending connections: exactly who is on each list afterwards |
| `AppGlue.FirstComeFirstServed` | stack_and_service/porting/app_glue.c:323-359 | with exact counters and callbacks that only raise events, a drain serves exactly the sockets queued on entry, in order, and leaves those queued again, in arrival order |
| `AppGlue.RequeuedMembers` | stack_and_service/porting/app_glue.c:323-359 | a socket is queued again exactly if an event during the pass targeted it when it was not waiting to be served, and only once |
| `AppGlue.StaysExactly` | stack_and_service/porting/app_glue.c:302-322 | after any script a socket is on the closed or accept list if and only if the last action that concerns it put it there: an event for it puts it on, closing it or handing it out as the head takes it off |
| `AppGlue.ClosedDrainSound` | stack_and_service/porting/app_glue.c:307-314 | the removals of the closed loop are sound if and only if every callback leaves its socket on the list |
| `AppGlue.AcceptDrainSound` | stack_and_service/porting/app_glue.c:315-322 | the same for the accept loop |
| `AppGlue.RunIsSound` | stack_and_service/porting/app_glue.c:302-617 | a run never removes a socket that has left its list if and only if every callback of its drains meets the condition of StaysExactly |
| `AppGlue.ScriptDecides` | stack_and_service/porting/app_glue.c:302-322 | the place the script alone assigns to the socket, whatever the lists hold: first, off, back on, or undecided |
| `AppGlue.FatalCallback` | stack_and_service/porting/app_glue.c:307-314 | the removal after user_on_socket_fatal is sound if and only if its script, read without the lists, does not leave the socket off; the scripts it does not decide hand sockets out after putting this one back, or close another listener after taking this one off |
| `AppGlue.AcceptCallback` | stack_and_service/porting/app_glue.c:315-322 | the same for user_on_accept |
| `AppGlue.FateOfCalls` | stack_and_service/porting/app_glue.c:302-322 | without an event for the socket: off if and only if some action closes it or hands out the head |
| `AppGlue.UnsureIsUnsure` | stack_and_service/porting/app_glue.c:307-314 | a script that is sound or not depending on the sockets queued behind |
| `AppGlue.CloseInsideFatalCallback` | stack_and_service/porting/app_glue.c:307-314 | a failing input: user_on_socket_fatal closes its own socket |
| `AppGlue.HarmlessKeepClosed` | stack_and_service/porting/app_glue.c:307-314 | callbacks that neither close nor call get_next_closed keep the closed loop sound, and it empties its list |
| `AppGlue.HarmlessKeepAccepted` | stack_and_service/porting/app_glue.c:315-322 | the same for the accept loop and get_next_listener |
| `AppGlue.Glue.References` | stack_and_service/porting/app_glue.c:302-617 | a socket has one reference for each list it is on and one for each time get_next or a close left one behind |
| `AppGlue.CountersStayExact` | stack_and_service/porting/app_glue.c:302-617 | without get_next_reader and get_next_writer nothing is added to the counters' account, in any run |
| `AppGlue.Glue.SockReadable` | stack_and_service/porting/app_glue.c:71-93 | the fatal exit is unreachable; a ready socket joins the read list once |
| `AppGlue.Glue.SockWriteSpace` | stack_and_service/porting/app_glue.c:102-121 | a ready writeable socket joins the write list once |
| `AppGlue.Glue.SockErrorReport` | stack_and_service/porting/app_glue.c:130-140 | the socket joins the closed list once |
| `AppGlue.Glue.SockWakeup` | stack_and_service/porting/app_glue.c:150-180 | a listener joins the accept list, another socket is offered for writing |
| `AppGlue.Glue.GetNextReader` | stack_and_service/porting/app_glue.c:536-548 | hands out the head of the list; the list's reference and count stay behind, so the counter exceeds the list by one more exactly if a socket is handed out |
| `AppGlue.Glue.GetNextWriter` | stack_and_service/porting/app_glue.c:516-529 | the same for the write list |
| `AppGlue.Glue.GetNextListener` | stack_and_service/porting/app_glue.c:555-569 | the same for the accept list |
| `AppGlue.Glue.GetNextClosed` | stack_and_service/porting/app_glue.c:495-509 | the same for the closed list |
| `AppGlue.Glue.CloseSocket` | stack_and_service/porting/app_glue.c:580-617 | takes the socket off the read and write lists, lets the events of pending connections happen, which may put it back there, then takes it off the other two; the references of the lists it leaves stay behind |
| `AppGlue.Glue.Act` | stack_and_service/porting/app_glue.c:71-180 | one action has its effect on the queues and keeps the invariant |
| `AppGlue.Glue.ProcessTx` | stack_and_service/porting/app_glue.c:342-359 | whatever the callbacks do, the drain keeps the invariant and its effect on the queues is Drain |
| `AppGlue.Glue.DrainReaders` | stack_and_service/porting/app_glue.c:322-333 | the same for the read loop |
| `AppGlue.Glue.DrainClosed` | stack_and_service/porting/app_glue.c:307-314 | the effect of the closed loop, and it removes a socket that is off its list if and only if some callback has taken it off (ClosedSound) |
| `AppGlue.Glue.DrainAccepted` | stack_and_service/porting/app_glue.c:315-322 | the same for the accept loop |
| `AppGlue.Glue.ProcessRx` | stack_and_service/porting/app_glue.c:302-334 | the three loops in a row, with the exact condition on the callbacks of the first two and the sockets each of them calls the user for; if they go well, the read list they leave is served in order |
| `Tailq.Head.RemoveAgain` | stack_and_service/porting/app_glue.c:307-322 | removing an element that has left leaves the queue well linked if and only if its former neighbours are next to each other now or have both left |
| `Tailq.Head.InsertTail` | stack_and_service/porting/app_glue.c:71-140 | on pointers: the element joins at the end, and all links are those of the longer queue |
| `Tailq.Head.Remove` | stack_and_service/porting/app_glue.c:307-358 | on pointers: the element leaves from any place, and all links are those of the shorter queue; the element keeps its own |
| `Tailq.Head.LosesAnother` | stack_and_service/porting/app_glue.c:307-322 | a case that is not: the element that has joined since is lost |
| `Pipeline.EveryRun` | dpdk-16.07/app/test-pipeline/runtime.c:78-184 | every interleaving keeps: packets received on port i are those gone at port i^1, then its TX buffer, the TX ring, the worker's hand, the RX ring and RX's hand, in order |
| `Pipeline.OutputFollowsInput` | dpdk-16.07/app/test-pipeline/runtime.c:78-184 | what leaves at a port is a prefix of what came in at its partner, and the TX buffer never exceeds its array |
| `Pipeline.EveryBurstGetsOut` | dpdk-16.07/app/test-pipeline/runtime.c:78-184 | from every reachable state some run without further input brings all packets out at the partner port but fewer than make a burst in each ring and the buffer, if the rings hold a burst on top of such a rest |
| `Pipeline.Stuck` | dpdk-16.07/app/test-pipeline/runtime.c:78-127 | an RX ring that cannot hold what RX has on top of such a rest stops RX for good |
| `Pipeline.StuckExample` | dpdk-16.07/app/test-pipeline/runtime.c:78-127 | a run that gets there |
| `Pipeline.SendsBursts` | dpdk-16.07/app/test-pipeline/runtime.c:139-184 | a port gets bursts of at least the size set, the packets it takes first are sent and the others freed |
| `Pipeline.InTurn` | dpdk-16.07/app/test-pipeline/runtime.c:78-184 | each core visits the ports in turn and stays on one only while it holds a burst there |
| `Pipeline.PerformKeepsInv` | dpdk-16.07/app/test-pipeline/runtime.c:78-184 | every atomic action of every core keeps order, content and bounds |
| `Pipeline.PortMasks` | dpdk-16.07/app/test-pipeline/runtime.c:78-184 | for a power of two, the masks and exclusive-or of the loops are the remainder and the neighbour |
| `CopySplit.PktCopySplit` | dpdk-16.07/app/test-pmd/csumonly.c:526-605 | either a chain of exactly the chosen segments, cut as Split does, with the same bytes and header, or NULL with every mbuf taken given back; and exactly when |
| `CopySplit.SplitKeepsBytes` | dpdk-16.07/app/test-pmd/csumonly.c:465-524 | cutting a packet into segments loses, repeats and reorders no byte |
| `CopySplit.CopySegments` | dpdk-16.07/app/test-pmd/csumonly.c:478-512 | the copying loop fills the segments as Split does; it leaves source mbufs exactly when the segments run out |
| `CopySplit.MbufCopySplit` | dpdk-16.07/app/test-pmd/csumonly.c:459-524 | -ENOBUFS, -EINVAL or the number of segments, in exactly these cases, and the header fields copied |
| `CopySplit.ChooseLengths` | dpdk-16.07/app/test-pmd/csumonly.c:546-561 | no more segments than it takes to cover the packet, the last one adjusted in 16 bits |
| `CopySplit.EverySegmentUsed` | dpdk-16.07/app/test-pmd/csumonly.c:546-563 | a copy that succeeds uses every segment it asked for, so nb_segs is the length of the chain |
| `CopySplit.SingleSegmentFits` | dpdk-16.07/app/test-pmd/csumonly.c:546-561 | a packet in one mbuf is copied if and only if every allocation succeeds with the room of its configured length, the last one also for what is missing (the first one needs none) |
| `CopySplit.SingleSegmentPieces` | dpdk-16.07/app/test-pmd/csumonly.c:465-561 | and then every segment but the last one used is filled to its configured length |
| `CopySplit.ChosenLengths` | dpdk-16.07/app/test-pmd/csumonly.c:546-561 | as many of the configured lengths as it takes, or all of them with the last one grown by what is missing, and enough exactly if that fits 16 bits |
| `CopySplit.TooLongForLast` | dpdk-16.07/app/test-pmd/csumonly.c:526-605 | a packet whose last segment would need more than 65535 bytes is not copied |
| `CopySplit.ShortPieceEnds` | dpdk-16.07/app/test-pmd/csumonly.c:478-512 | a segment that is not filled ends where a source mbuf ends |
| `CopySplit.SourceEndsCut` | dpdk-16.07/app/test-pmd/csumonly.c:478-512 | where a source mbuf ends, a segment ends |
| `CopySplit.CopyFits` | dpdk-16.07/app/test-pmd/csumonly.c:563-586 | a copy stays within its mbufs exactly when the first one is large enough |
| `CopySplit.FirstRoomUnchecked` | dpdk-16.07/app/test-pmd/csumonly.c:563-586 | the tailroom test of the last allocation, which is for the first segment, has no effect |
| `Sha1.ShaTransform` | stack_and_service/lib/sha1.c:69-190 | for every digest, block and workspace contents, the digest becomes the compression of section 6.1.2 of FIPS 180-4 |
| `Sha1Example.AbcDigest` | stack_and_service/lib/sha1.c:69-190 | the specification gives the digest of "abc" that section 7.3 of RFC 3174 publishes |
| `Sha1.ChIs` | stack_and_service/lib/sha1.c:63-64 | the rewritten choice function is Ch of section 4.1.1 of FIPS 180-4 |
| `Sha1.MajIs` | stack_and_service/lib/sha1.c:66 | the majority function with an addition is Maj: the addition does not carry |
| `Sha1.MixIsNext` | stack_and_service/lib/sha1.c:49-56 | the word mixed from the 16-word circular array is the next word of the 80-word schedule (section 6.1.3 of FIPS 180-4) |
| `Checksum.PatchKeepsValid` | dpdk-16.07/app/test-pmd/icmpecho.c:507-513 | the patched checksum (section 3 of RFC 1624) is valid exactly when identifier, sequence number and data are not all zero |
| `Checksum.AllZeroRequest` | dpdk-16.07/app/test-pmd/icmpecho.c:507-513 | a failing input: the valid all-zero request with checksum 0xFFF7 |
| `Checksum.OnesSumIsCanon` | dpdk-16.07/app/test-pmd/flowgen.c:92-108 | adding all end-around carries at the end is adding each when it arises (section 2 of RFC 1071) |
| `Checksum.PublishedSum` | dpdk-16.07/app/test-pmd/flowgen.c:91-108 | the numerical example of section 3 of RFC 1071 |
| `Checksum.FoldKeeps` | dpdk-16.07/app/test-pmd/flowgen.c:92-108 | folding keeps the value modulo 65535, tells zero from 65535, and makes progress |
| `Checksum.IpSum` | dpdk-16.07/app/test-pmd/flowgen.c:91-108 | no 32-bit overflow for any length, and the complemented one's complement sum of sections 1 and 2 of RFC 1071 |
| `Checksum.Ipv4HdrCksum` | dpdk-16.07/app/test-pmd/icmpecho.c:274-293 | agrees with ip_sum over the header with a zero checksum, except for the other form of zero |
| `Checksum.UdpIpCksum` | dpdk-16.07/app/test-pmd/txonly.c:156-177 | the same, with one fold and a subtraction |
| `Checksum.ValidHeaders` | dpdk-16.07/app/test-pmd/icmpecho.c:274-293 | a header is valid with exactly that checksum or its other form of zero |
| `Checksum.ReplyHeader` | dpdk-16.07/app/test-pmd/icmpecho.c:492-506 | swapping the addresses keeps a valid header valid; a request to a first octet of 224 is answered from the address of its sender with the last two bits changed, with a header that is always valid; the reply to 225 to 239 leaves with a multicast source address, and no other does if the request came from a unicast address |
| `Checksum.PatchEcho` | dpdk-16.07/app/test-pmd/icmpecho.c:507-513 | the words of the reply |

## Left out

- Vsnprintf.FormatInto: `pointer()` and its `%p` extensions other than the IPv6 printer are a parameter that gives the whole text, because `hex_string` looks at the end of the buffer and the rest is kernel lookup; arguments past the end of the list read as zeros; `%s` prints "(null)" below `PAGE_SIZE`, which the port defines as 0x400.
- Format.SkipAtoi: the overflow of an `int` by a width or precision of more than nine digits is not modelled, because C leaves it undefined.
- Kstrtox.ParseInteger: digit runs of 2^31 characters and more, which would run into the overflow bit, are excluded.
- RoundTrip.UnsignedRoundTrip: padded output is not read back, because the readers do not skip blanks.
- BitmapOrd.BitmapWeight: the weight of a word is the number of its set bits; the port's own `__arch_hweight64` is a stub that reports that it is not implemented and returns 0.
- BitmapArea.FindNextZeroArea: an area of no bits and addresses near the top of the address range are not modelled.
- BitmapShift.ShiftRight: shifts of more than the words of the bitmap, for which the clearing loop at the end would start before the array, are excluded.
- AppGlue.Glue.Run: the lists are sequences here and pointers only in `Tailq`, which the glue's methods do not use (`sys/queue.h` is not part of the repository); a failing removal ends the run instead of going on with broken links. Not part of this model are the names the closing function gives the stack's callbacks back, the user data, and a socket without a `sock`. `kernel_close` and `kernel_accept` appear as the events they raise.
- AppGlue.Glue.DrainClosed: whether the closed and accept loops end by themselves depends on the stack; the script of callbacks bounds them.
- Pipeline.EveryRun: the worker reads and writes bursts of one size and a TX burst on top of an unfinished one fits the 256 places of its array, as with the defaults in `init.c`; an enqueue or dequeue of a ring is one action; the watermark return of a ring is not modelled.
- Pipeline.EveryBurstGetsOut: the room asked of the TX rings is enough for every burst size but not always needed, because what stays in a ring is a multiple of what two burst sizes have in common.
- CopySplit.PktCopySplit: bytes written past the room of a buffer are kept with it instead of overwriting something else; the length of mbuf headers and the number of segments of the source are not modelled.
- Sha1.ShaTransform: padding and chaining of blocks happen in callers.
- Checksum.IpSum: an odd last byte is left out, as in the code; words are read as on a little-endian machine.
- Bitmaps: the word-by-word `and`, `or`, `xor`, `empty`, `full`, `equal` and `subset` operations and the little-endian searches would only add easy members; the text printers and parsers are compiled out.
- `simple_strto*`, `vsscanf`, `bprintf`: the first is a shorter `kstrto*`, the others repeat the formatter's tables.
- MD5, the notifier chains, per-CPU counters, the crypto registry, the stream-to-core split: easier than what is here, or not decided by the code shown.
- Device, memory-pool, ring and timer internals, statistics, command lines and logging.
