# Proofs about the pharoah firmware support code

The repository holds the support code of a small embedded target: the SEGGER real-time terminal
(`rtt/`), a continuation and task library (`pctest/`), and newlib with its headers and its GDB stub
(`newlib-2.2.0.20150623/`). This project models the parts of it that compute something and proves what
they are for. `dafny verify dfyconfig.toml` checks everything.

## Reading guide

- `Numbers` holds bytes, powers and shared facts. `Quotient`, `Remainder` and `LongLong.Wrap` are
  unsigned `/`, `%` and wrap-around written as repeated subtraction, with lemmas tying them to `/` and `%`.
- `LongLong`: the plain C macros for two-word addition, subtraction, multiplication and division. A word
  has `w = b * b` values for any `b` (any even `b` for division), so the results hold for every word
  size. A bitwise or of operands that share no bit is a sum.
- `BitCount`: counting leading and trailing zeros, for any whole number of bytes a word. The table
  `__clz_tab` is only declared in the header; it is taken to hold bit lengths.
- `RttRing` (offset arithmetic), `RttUp` (`SEGGER_RTT_Write`), `RttDown` (`SEGGER_RTT_Read`) and
  `RttProtocol` (all interleavings of single steps). The debug probe is not part of the repository. In the
  classes it is an arbitrary schedule that acts before every access of the target to the ring, each copied
  byte included; in `RttProtocol` it is a step like any other, and the class of `RttUp` records its run of that
  protocol. The probe is assumed to take no byte that is not
  there, to append only into free space, and to read `WrOff == SizeOfBuffer` as `0`;
  `RttRing.LinearReaderMisled` says exactly when a probe that does not do the last would be misled, and
  `RttProtocol.MisleadingMoment` that this moment occurs.
- `RttFormat` says what text a format stands for, `RttPrintf` models `SEGGER_RTT_vprintf` on top of the
  class of `RttUp`: staging buffer, flushes, errors. `RttDecimal` says what the digit loops do in decimal when
  the scale factor has wrapped, and `RttMeaning` says in character codes and argument numbers what text a format
  stands for.
- `Obstack`: the macros over chunks of memory. `_obstack_newchunk` is out of line and follows its
  description in the header: a larger aligned chunk, the growing object copied, the old chunk given up
  unless it holds or may hold another object.
- `Leb128`, `GdbHex`, `GdbPacket`: decoders and the remote protocol (DWARF section 7.6, Variable Length
  Data; GDB manual, appendix "GDB Remote Serial Protocol", section Overview).
- `StormFuture`, `StormQueue`: futures as numbered nodes whose bindings are overwritten, and the queue
  whose front is popped only after it has fired.

## What the code does not do

Where code and documentation disagree, the model follows the code.

- `SEGGER_RTT_vprintf` (rtt/SEGGER_RTT_printf.c:265, 401) does not return the number of bytes stored.
  `RttPrintf.Vprintf` proves, for every behaviour of the probe: a result that is not negative is the length
  of the text plus its remainder modulo the buffer size, so it is the number stored exactly when the buffer
  size divides the length; and the result is negative exactly when not even the whole buffers of the text
  were stored, that is when the flush of a full buffer fell short. In blocking mode, or when the ring has
  space for those whole buffers beforehand, that does not happen; if the probe is silent it happens in all
  other cases. A last partial flush that falls short is never reported: `RttPrintf.ShortfallUnreported`
  prints one character into a full ring, stores nothing and gets the result 2.
- A length modifier makes a conversion swallow the character after it (`RttFormat.ModifierSwallows`).
- A precision is honoured exactly when the power of the base it needs fits 32 bits (`RttFormat.PrecisionLimit`,
  for every number): up to 10 in decimal, 8 in hexadecimal. Above that the loops print fewer characters
  than asked for, and may do worse: from 33 in decimal and 9 in hexadecimal, up to where the precision turns
  negative as a signed number, they divide by zero (`RttFormat.DivisionByZero`). In decimal the table of digits
  is read outside its bounds for precision 17 only, and there exactly for the numbers that leave 16 or more
  below the first two digits of the scale factor (`RttDecimal.DecimalPrintable`; `RttFormat.OutsideTheTable` is
  one of them). All numbers come out in decimal digits exactly for the precisions up to 10 and those negative
  as signed numbers (`RttDecimal.DecimalExactly`;
  `RttFormat.LetterInDecimal` shows a letter).
- `__udiv_qrnnd_c`: the comment on the inner test speaks of the first correction, whose wrap that test
  detects. The second addition of d wraps every time it is reached (`LongLong.SecondAdditionWraps`), and no
  test sees it; `LongLong.TrialDigit` says exactly when, and the last subtraction takes the wrap back.
- `getpacket` acknowledges without looking at the checksum (`GdbPacket.AnswerFrame` says when that is the
  reply the protocol asks for). A packet that fills the buffer is dropped and the next one awaited, unless its
  sum is 255: then it returns with the full buffer and without an acknowledgement (`GdbPacket.ReceiveOverlong`,
  `GdbPacket.OverlongUnanswered`; `GdbPacket.OverlongExists` gives such a packet).
- Binding `then` after `except` on the same future loses the handler (`StormFuture.ThenDisplacesExcept`).

## Model

| member | source | states |
|---|---|---|
| LongLong.AddSsaaaa | newlib-2.2.0.20150623/include/longlong.h:1585-1591 | the two words hold the sum, less one full two-word range exactly when it overflows |
| LongLong.SubDdmmss | newlib-2.2.0.20150623/include/longlong.h:1595-1601 | the two words hold the difference, plus one full range exactly when it is negative |
| LongLong.HalfMul | newlib-2.2.0.20150623/include/longlong.h:1629-1632 | a product of half words does not wrap and leaves room for one more half word |
| LongLong.SumPartials | newlib-2.2.0.20150623/include/longlong.h:1634-1640 | summing the four partial products loses nothing: the first addition never carries, the tested one is the only carry |
| LongLong.UmulPpmm | newlib-2.2.0.20150623/include/longlong.h:1619-1641 | the two words hold the exact product of any two words |
| LongLong.UmulFromSmul | newlib-2.2.0.20150623/include/longlong.h:1607-1614 | the version corrected from a signed product gives the same exact unsigned product |
| LongLong.CorrectDigit | newlib-2.2.0.20150623/include/longlong.h:1661-1668 | at most two corrections on wrapped words turn a guess into the exact quotient digit and remainder; a wrap that no test sees happens exactly when there is a second correction |
| LongLong.TrialDigit | newlib-2.2.0.20150623/include/longlong.h:1658-1668 | one half word of quotient: exact, below the base, and at most two below the guess from the high half of d; the undetected wrap happens exactly when adding d once leaves the shifted remainder inside the word and below the product |
| LongLong.UdivQrnndC | newlib-2.2.0.20150623/include/longlong.h:1652-1687 | for every normalised d and n1 below d: q * d + r is the dividend, r below d, q one word |
| LongLong.SecondCorrectionWraps | newlib-2.2.0.20150623/include/longlong.h:1665-1667 | an input on which it happens |
| LongLong.SecondAdditionWraps | newlib-2.2.0.20150623/include/longlong.h:1664-1667 | after a first addition without a carry, a second one of a normalised d wraps, always and exactly once |
| LongLong.DivideAndRestore | newlib-2.2.0.20150623/include/longlong.h:1585-1687 | multiplying the quotient back and adding the remainder gives the dividend, with no carry out |
| LongLong.AddThenSubtract | newlib-2.2.0.20150623/include/longlong.h:1585-1601 | subtraction undoes addition for all operands, also when the sum overflowed |
| BitCount.ShiftByTree | newlib-2.2.0.20150623/include/longlong.h:1713-1718 | the branch tree finds a shift within eight bits below the bit length |
| BitCount.ShiftByLoop | newlib-2.2.0.20150623/include/longlong.h:1719-1724 | the byte loop finds such a shift too |
| BitCount.TableCounts | newlib-2.2.0.20150623/include/longlong.h:1726 | the table index is at most 255 and the entry plus the shift is the bit length |
| BitCount.CountLeadingZeros | newlib-2.2.0.20150623/include/longlong.h:1708-1727 | the count c satisfies 2^(w-1-c) <= x < 2^(w-c); it is w for 0 |
| BitCount.LowestBit | newlib-2.2.0.20150623/include/longlong.h:1738 | x and -x have exactly the lowest set bit of x in common |
| BitCount.CountTrailingZeros | newlib-2.2.0.20150623/include/longlong.h:1734-1740 | x is an odd multiple of 2 to the count |
| BitCount.OddMultipleUnique | newlib-2.2.0.20150623/include/longlong.h:91-92 | that power of two is unique, so it is the largest one dividing x |
| RttRing.TakeFront | rtt/SEGGER_RTT.c:98-105 | moving RdOff over n unread bytes drops exactly the n oldest |
| RttRing.FillFree | rtt/SEGGER_RTT.c:345 | writing a slot counted as free changes no unread byte |
| RttRing.PublishBack | rtt/SEGGER_RTT.c:349 | moving WrOff over n slots appends exactly their bytes |
| RttRing.WrapBack | rtt/SEGGER_RTT.c:350-352 | wrapping WrOff changes nothing for the reader |
| RttRing.RoomIsFree | rtt/SEGGER_RTT.c:339-342 | the signed offset arithmetic counts the free slots |
| RttRing.LinearReaderMisled | rtt/SEGGER_RTT.c:349-352 | a reader that ignores the moment WrOff equals the size is wrong exactly when RdOff has wrapped to 0 |
| RttUp.UpRing.HostReads | rtt/SEGGER_RTT.c:103 | the probe takes bytes off the front, in order, at any moment; its turn is a step of the protocol |
| RttUp.UpRing.CountRoom | rtt/SEGGER_RTT.c:338-344 | a count from a stale RdOff never exceeds the free space, and is 0 only if the ring was full and the probe idle |
| RttUp.UpRing.CopyIn | rtt/SEGGER_RTT.c:345 | the copy puts the data behind the unread bytes and disturbs none, whatever the probe takes meanwhile |
| RttUp.UpRing.Publish | rtt/SEGGER_RTT.c:349-352 | WrOff moves, possibly to the size, then wraps; the probe may act in between |
| RttUp.UpRing.WritePass | rtt/SEGGER_RTT.c:337-353 | one pass stores a prefix of the rest, at least as much as was free up to the buffer end |
| RttUp.UpRing.WriteAll | rtt/SEGGER_RTT.c:336-353 | the loop stores exactly the counted bytes: in at most two passes if they fitted when it began, and in blocking mode however many they are |
| RttUp.UpRing.Write | rtt/SEGGER_RTT.c:294-356 | consumed plus unread is always what was stored; flags 0 (skip) stores all or nothing, 1 (trim) what fits, measured by the space found at the check after one turn of the probe, 2 (block) everything; at most two passes unless blocking, which ends if the probe never stops reading; nothing leaves the ring but what the probe may take |
| RttUp.BlockBeyondSize | rtt/SEGGER_RTT.c:336-353 | a ring of two bytes takes data of any length in blocking mode from a probe that takes one byte a tick |
| RttUp.UpRing.NothingLost | rtt/SEGGER_RTT.c:294-356 | every access of the writer and turn of the probe is a step of the protocol, so at any moment taken, unread and in-flight bytes are what was written, in order |
| RttProtocol.UnreadBytesSurvive | rtt/SEGGER_RTT.c:337-353 | no step of the writer changes or hides a byte the probe has still to read |
| RttProtocol.RunKeepsInv | rtt/SEGGER_RTT.c:294-356 | every run keeps the offsets in range and neither loses nor invents a byte |
| RttProtocol.EveryRunIsLossless | rtt/SEGGER_RTT.c:294-356 | over every interleaving: taken, unread and in-flight bytes are together the bytes written, in order, and at most size - 1 are held |
| RttProtocol.MisleadingMoment | rtt/SEGGER_RTT.c:349-352 | a run reaches the moment in which such a reader is misled |
| RttDown.DownRing.HostAppends | rtt/SEGGER_RTT.c:102 | the probe appends exactly as much as fits, at any moment |
| RttDown.DownRing.CopySegments | rtt/SEGGER_RTT.c:241-267 | both copies together deliver the oldest bytes seen, wrapped or not, and the new RdOff; the ring then holds exactly what it held and what the probe appended in each turn meanwhile |
| RttDown.DownRing.Read | rtt/SEGGER_RTT.c:227-273 | what is seen is what was unread and what the probe appended before the sample; returns the oldest min(size, seen) bytes; what is left is exactly the rest of them and everything appended in every later turn, in order |
| RttDown.AfterInParts | rtt/SEGGER_RTT.c:241-267 | what the probe appends over a stretch of time is what it appends over its parts, one after the other |
| RttDown.AfterSilence | rtt/SEGGER_RTT.c:241-267 | a silent probe leaves the unread bytes as they are |
| RttDown.DownRing.GetKey | rtt/SEGGER_RTT.c:401-410 | -1 exactly when nothing was unread when WrOff was sampled, otherwise the oldest byte, which is taken; exactly the others and everything appended later stay |
| RttDown.DownRing.HasKey | rtt/SEGGER_RTT.c:450-459 | 1 exactly when a byte is unread |
| RttFormat.IntTextLength | rtt/SEGGER_RTT_printf.c:176-243 | a signed field has max(width, sign + max(precision, digits)) characters exactly when the precision fits, and fewer otherwise |
| RttFormat.DigitsDenote | rtt/SEGGER_RTT_printf.c:148-156 | the printed digits are digits of the base and denote the value |
| RttFormat.DigitCountBelow | rtt/SEGGER_RTT_printf.c:113-117 | the digit count is the least exponent whose power exceeds the value |
| RttFormat.DigitsFromTop | rtt/SEGGER_RTT_printf.c:149-151 | dividing by the scale factor splits off the most significant digit |
| RttFormat.ScanReadsBack | rtt/SEGGER_RTT_printf.c:307-315 | the width scanner reads every printed decimal number back |
| RttFormat.ModifierSwallows | rtt/SEGGER_RTT_printf.c:336-388 | after a modifier, and only then, the read position is already behind the specifier |
| RttFormat.FlagsScanned | rtt/SEGGER_RTT_printf.c:292-302 | the flag scan stops at the first character that is no flag and sets exactly the flags it passed |
| RttFormat.PrecisionLimit | rtt/SEGGER_RTT_printf.c:113-156 | for every number the loops print the promised count of digits exactly when the power the precision needs fits 32 bits, and fewer otherwise |
| RttFormat.FittingNumeral | rtt/SEGGER_RTT_printf.c:142-156 | then what they print are the digits of the number, as many as asked for, without leaving the table |
| RttFormat.DivisionByZero | rtt/SEGGER_RTT_printf.c:142 | the scaling loop divides by zero exactly for precisions from 33 in decimal and from 9 in hexadecimal, below 2^31 |
| RttFormat.HexadecimalPrintable | rtt/SEGGER_RTT_printf.c:142-156 | in hexadecimal nothing else can go wrong |
| RttFormat.OutsideTheTable | rtt/SEGGER_RTT_printf.c:149-151 | an input that leaves the table: precision 17 and the number 17, whose tenth index is 17 |
| RttFormat.LetterInDecimal | rtt/SEGGER_RTT_printf.c:149-151 | an input printed with a letter: precision 23 and 4294967295, whose last digit comes out as C |
| RttDecimal.TableLeft | rtt/SEGGER_RTT_printf.c:148-156 | for any scale factor: the loop leaves the table exactly when the first two digits of the factor are 17, 18 or 19 and 16 or more is left at the last division |
| RttDecimal.DecimalPrintable | rtt/SEGGER_RTT_printf.c:142-156 | for every number and precision: decimal output is defined except for the divisions by zero and, at precision 17 alone, the numbers that leave 16 or more below the last two digits |
| RttDecimal.RoundIsDecimal | rtt/SEGGER_RTT_printf.c:148-156 | a scale factor of one digit and zeros prints every number in decimal digits |
| RttDecimal.RaggedWitness | rtt/SEGGER_RTT_printf.c:148-156 | below any other scale factor some number is not printed in decimal digits |
| RttDecimal.LetterWitness | rtt/SEGGER_RTT_printf.c:142-156 | such a number for each precision from 11 to 32 |
| RttDecimal.DecimalExactly | rtt/SEGGER_RTT_printf.c:142-156 | all 32-bit numbers print in decimal digits exactly for precisions up to 10 and those negative as signed numbers |
| RttFormat.PrecisionFitsUpTo | rtt/SEGGER_RTT_printf.c:142-144 | that is up to precision 10 in decimal and 8 in hexadecimal |
| RttMeaning.HornerOfDigits | rtt/SEGGER_RTT_printf.c:148-156 | the digits are characters 0 to 9 and A to F and denote the value by the schoolbook rule |
| RttMeaning.UnsignedTextIs | rtt/SEGGER_RTT_printf.c:100-170 | an unsigned number: digits that denote it, as many as it has and at least the precision, in the field the flags ask for |
| RttMeaning.IntTextIs | rtt/SEGGER_RTT_printf.c:176-243 | a signed one: the same for its magnitude, with - exactly if it is negative and + if it is not and the flag is set, and where filler, sign and digits stand |
| RttMeaning.PrintsIntArgument | rtt/SEGGER_RTT_printf.c:348-383 | c prints the low byte, d the signed decimal, u the unsigned decimal, x and X the unsigned hexadecimal number, p eight hexadecimal digits |
| RttMeaning.TextIs | rtt/SEGGER_RTT_printf.c:283-392 | the text of a well-formed format, item by item: characters as they are, and the k-th conversion that takes an argument prints the k-th argument |
| RttMeaning.SuitsIs | rtt/SEGGER_RTT_printf.c:347-387 | which arguments a conversion may meet: a 32-bit number, or a string, as its specifier asks |
| RttMeaning.WellFormedIs | rtt/SEGGER_RTT_printf.c:283-392 | a format is well formed if every conversion up to its end suits the arguments left over |
| RttMeaning.ConversionIs | rtt/SEGGER_RTT_printf.c:288-343 | flags, then the width, then after a period the precision, both modulo 2^32, then the specifier, and where the format goes on |
| RttMeaning.TwoCharacters | rtt/SEGGER_RTT_printf.c:349-353 | %c%c prints its first and its second argument |
| RttPrintf.PrintfDesc.StoreChar | rtt/SEGGER_RTT_printf.c:75-94 | a stored character is staged or flushed, or an error is noted; after an error at most the start of the same buffer is put into the ring once more |
| RttPrintf.PrintfDesc.PadField | rtt/SEGGER_RTT_printf.c:131-136 | the padding loop fills up to the field width and leaves less than the number needs |
| RttPrintf.ScaleUp | rtt/SEGGER_RTT_printf.c:142-144 | for every precision the scaling loop, with wrapping multiplication, arrives at the specified factor, or stops at the division by zero |
| RttPrintf.PrintfDesc.EmitDigits | rtt/SEGGER_RTT_printf.c:148-156 | for every scale factor the output loop stores the specified characters, and is stopped exactly where an index leaves the table |
| RttPrintf.CountWidth | rtt/SEGGER_RTT_printf.c:113-120 | the counting loop gives max(digits, precision) |
| RttPrintf.PrintfDesc.PrintUnsigned | rtt/SEGGER_RTT_printf.c:100-170 | the field of an unsigned number, or a prefix of it and an error; undefined only if the digit loops are |
| RttPrintf.PrintfDesc.PrintInt | rtt/SEGGER_RTT_printf.c:176-243 | the field of a signed number: spaces, sign, zeros, digits, spaces as the flags ask; undefined only if the digit loops are |
| RttPrintf.NoSecondPadding | rtt/SEGGER_RTT_printf.c:197-242 | what the signed printer leaves of the width never makes the unsigned one pad again |
| RttPrintf.ReadFlags | rtt/SEGGER_RTT_printf.c:292-302 | the flag loop stops at the first character that is no flag, and a flag is set exactly if its character was passed |
| RttPrintf.ReadNumber | rtt/SEGGER_RTT_printf.c:307-315 | the number loop computes the 32-bit number it passes |
| RttPrintf.ReadModifiers | rtt/SEGGER_RTT_printf.c:336-343 | the modifier loop yields the specifier and the read position |
| RttPrintf.ReadConversion | rtt/SEGGER_RTT_printf.c:288-343 | flags, width, precision and specifier of one conversion |
| RttPrintf.PrintfDesc.PrintConversion | rtt/SEGGER_RTT_printf.c:347-387 | the text of one conversion, or a prefix of it and an error |
| RttPrintf.PrintfDesc.PrintFormat | rtt/SEGGER_RTT_printf.c:283-392 | the text of the whole format, or a prefix of it and an error |
| RttPrintf.PrintfDesc.Finish | rtt/SEGGER_RTT_printf.c:394-403 | the leftover is written, its shortfall ignored, its length added to the result once more; a negative result stands for a full buffer that did not fit |
| RttPrintf.Vprintf | rtt/SEGGER_RTT_printf.c:268-404 | for any buffer size and probe, what the ring receives and the result: negative exactly if the whole buffers of the text were not all stored, the number stored exactly if the buffer size divides the length; after an error a prefix of the text and at most a repeated start of one buffer; at least as much is stored as a silent probe would allow, and exactly as much with one; without an error the format was defined |
| RttPrintf.ShortfallUnreported | rtt/SEGGER_RTT_printf.c:394-403 | a full ring for which the result is 2 with nothing stored |
| RttPrintf.FullRingReportsTwo | rtt/SEGGER_RTT_printf.c:394-403 | one character into any full ring in skipping mode, with a silent probe: nothing stored, result 2 |
| RttPrintf.OutcomeOf | rtt/SEGGER_RTT_printf.c:257-266 | how the state at the end of a print decides the result in both directions |
| Obstack.AlignRoundsUp | newlib-2.2.0.20150623/include/obstack.h:428-430 | the next free address is the next aligned one |
| Obstack.MaskRoundsUp | newlib-2.2.0.20150623/include/obstack.h:428-430 | the expression with the alignment mask computes it, for every power of two and word size |
| Obstack.GoodAllocatorExists | newlib-2.2.0.20150623/include/obstack.h:84-87 | an allocator that hands out aligned chunks with room, clear of all others, exists |
| Obstack.Stack.NewChunk | newlib-2.2.0.20150623/include/obstack.h:84-87 | the growing object moves unchanged to a new chunk with room, the old chunk is given up exactly if it held nothing else and the flag is clear, and no finished object is lost with it |
| Obstack.NothingLeftBehind | newlib-2.2.0.20150623/include/obstack.h:180-183 | a chunk whose objects start where the growing one starts holds no finished object unless the flag is set |
| Obstack.Stack.Grow | newlib-2.2.0.20150623/include/obstack.h:331-339 | the growing object is extended by the data, also across a chunk move; with room it stays where it is, otherwise it starts the next chunk |
| Obstack.Stack.Grow0 | newlib-2.2.0.20150623/include/obstack.h:341-350 | the growing object is extended by the data and a zero; with room it stays where it is, otherwise it starts the next chunk |
| Obstack.Stack.OneGrow | newlib-2.2.0.20150623/include/obstack.h:352-358 | the growing object is extended by one byte; with room it stays where it is, otherwise it starts the next chunk |
| Obstack.Stack.Blank | newlib-2.2.0.20150623/include/obstack.h:392-399 | the growing object keeps its bytes and is longer by n; with room it stays where it is, otherwise it starts the next chunk |
| Obstack.Stack.Finish | newlib-2.2.0.20150623/include/obstack.h:421-435 | the object is kept where it lies, aligned unless empty; the next one starts at the next aligned address, or at the limit exactly if that lies beyond it |
| Obstack.Stack.Alloc | newlib-2.2.0.20150623/include/obstack.h:401-405 | a finished object of the asked length, aligned unless empty, in the chunk at hand if it fits |
| Obstack.Stack.Copy | newlib-2.2.0.20150623/include/obstack.h:407-411 | a finished object with the given bytes, in the chunk at hand if it fits, and where the next one starts |
| Obstack.Stack.TwoCopies | newlib-2.2.0.20150623/include/obstack.h:407-435 | two copies that fit lie at consecutive aligned addresses |
| Obstack.Stack.Free | newlib-2.2.0.20150623/include/obstack.h:437-443 | the address test finds the objects of the current chunk; freeing drops that object and all later ones and nothing else |
| Obstack.Stack.CopyThenFree | newlib-2.2.0.20150623/include/obstack.h:407-443 | freeing a non-empty object that fitted the chunk restores the state before its allocation |
| Obstack.Stack.NoOverlap | newlib-2.2.0.20150623/include/obstack.h:93-104 | live objects share no byte with each other or the growing one, and still hold what they were finished with |
| Obstack.Run | newlib-2.2.0.20150623/include/obstack.h:93-104 | any run of grow, blank, finish and free goes on until a free leaves the current chunk, and has at every step exactly the effect asked for; no finished object moves or changes at any step |
| Obstack.Perform | newlib-2.2.0.20150623/include/obstack.h:93-104 | one operation is carried out unless it frees an object outside the current chunk, and then has its effect |
| Leb128.TerminatedIsFirst | newlib-2.2.0.20150623/include/leb128.h:113-118 | the length is 0 exactly when no byte terminates, otherwise it ends at the first that does |
| Leb128.EncodedUnsigned | newlib-2.2.0.20150623/include/leb128.h:45-76 | the DWARF encoding of an unsigned number means that number and ends itself |
| Leb128.EncodedSigned | newlib-2.2.0.20150623/include/leb128.h:78-111 | the same for signed numbers |
| Leb128.AddGroup | newlib-2.2.0.20150623/include/leb128.h:68 | adding a group keeps the pattern equal to the value modulo 2^64, also when bits fall off in the tenth byte |
| Leb128.ReadUleb128 | newlib-2.2.0.20150623/include/leb128.h:53-76 | length as above, value modulo 2^64, result untouched at the buffer end |
| Leb128.ReadSleb128 | newlib-2.2.0.20150623/include/leb128.h:86-111 | the same with the sign extended |
| Leb128.SkipLeb128 | newlib-2.2.0.20150623/include/leb128.h:119-134 | the same length as both decoders |
| Leb128.DecodeEncodedUnsigned | newlib-2.2.0.20150623/include/leb128.h:53-76 | decoding the encoding of any uint64 gives it back with the encoding's length, whatever follows |
| Leb128.DecodeEncodedSigned | newlib-2.2.0.20150623/include/leb128.h:86-111 | the same for any int64 |
| GdbHex.BytesOfHex | newlib-2.2.0.20150623/libgloss/debug.c:180-238 | hex2mem undoes mem2hex on every byte sequence |
| GdbHex.HexDigits | newlib-2.2.0.20150623/libgloss/debug.c:149-163 | the digits are 48 to 57, 65 to 70 and 97 to 102, with their usual values |
| GdbHex.HexOfAt | newlib-2.2.0.20150623/libgloss/debug.c:202-203 | each byte becomes its two lower-case digits, high half first |
| GdbHex.BytesOfAt | newlib-2.2.0.20150623/libgloss/debug.c:227-230 | each pair of digits becomes one byte |
| GdbHex.JoinedBits | newlib-2.2.0.20150623/libgloss/debug.c:228-229 | that byte is the bitwise or of the shifted high and the low digit, also where one is none |
| GdbHex.HexOfBytes | newlib-2.2.0.20150623/libgloss/debug.c:180-238 | mem2hex after hex2mem lower-cases every even-length text of the digits 0 to 9, A to F and a to f |
| GdbHex.Mem2Hex | newlib-2.2.0.20150623/libgloss/debug.c:187-211 | fails exactly on a fault; otherwise the zero-terminated text and nothing beyond it |
| GdbHex.Hex2Mem | newlib-2.2.0.20150623/libgloss/debug.c:217-238 | fails exactly on a fault; otherwise the bytes of the text; memory outside the range is never touched |
| GdbHex.Stub.MakeReturnPacket | newlib-2.2.0.20150623/libgloss/debug.c:499-513 | OK, or E and the two digits of the error |
| GdbHex.Stub.ReadMemory | newlib-2.2.0.20150623/libgloss/debug.c:543-551 | replies with the text of the memory, or E03 exactly on a fault |
| GdbHex.Stub.WriteMemory | newlib-2.2.0.20150623/libgloss/debug.c:559-567 | writes the bytes of the text and replies OK, or E03 exactly on a fault |
| GdbHex.Stub.WriteThenRead | newlib-2.2.0.20150623/libgloss/debug.c:543-567 | what was written, upper or lower case, is read back in lower case |
| GdbHex.Hex2Int | newlib-2.2.0.20150623/libgloss/debug.c:245-264 | reads the longest run of hex digits, value modulo 2^32 |
| GdbHex.HexRunIs | newlib-2.2.0.20150623/libgloss/debug.c:252-262 | that run goes on over the characters 0 to 9, A to F and a to f and ends at the first other one |
| GdbHex.PutNum | newlib-2.2.0.20150623/libgloss/putnum.c:20-41 | exactly the eight hex digits, most significant first |
| GdbHex.NibblesDenote | newlib-2.2.0.20150623/libgloss/putnum.c:30-37 | those digits denote the number |
| GdbHex.PrintAndRead | newlib-2.2.0.20150623/libgloss/putnum.c:20-41 | hex2int reads back every 32-bit number that putnum prints |
| GdbPacket.Line.WaitForStart | newlib-2.2.0.20150623/libgloss/debug.c:279-280 | stops behind the first start character |
| GdbPacket.Line.ReadData | newlib-2.2.0.20150623/libgloss/debug.c:288-295 | keeps the masked characters up to #, a full buffer or the end of input, and their sum |
| GdbPacket.Line.GetPacket | newlib-2.2.0.20150623/libgloss/debug.c:269-327 | receives the next packet, terminates it, acknowledges once, uses exactly its bytes; the overlong case included |
| GdbPacket.Line.SendFrame | newlib-2.2.0.20150623/libgloss/debug.c:341-354 | one transmission is the frame of the text |
| GdbPacket.Line.PutPacket | newlib-2.2.0.20150623/libgloss/debug.c:332-358 | identical frames, one more than there were replies other than + (43, with any top bit) |
| GdbPacket.FrameChecksum | newlib-2.2.0.20150623/libgloss/debug.c:352-354 | the two digits of a frame decode to the sum of its data modulo 256 |
| GdbPacket.FrameIs | newlib-2.2.0.20150623/libgloss/debug.c:341-354 | a frame is $, the data, # and the sum of the data modulo 256 in two lower-case hex digits |
| GdbPacket.ChecksumIsSum | newlib-2.2.0.20150623/libgloss/debug.c:337-349 | the checksum kept in one byte is the sum modulo 256 |
| GdbPacket.ReceiveFrame | newlib-2.2.0.20150623/libgloss/debug.c:278-309 | through any junk, with any checksum digits, the data comes out and exactly the frame is used up |
| GdbPacket.SameReceive | newlib-2.2.0.20150623/libgloss/debug.c:280-304 | what is received depends on the bytes of the line only modulo 128 |
| GdbPacket.ReceiveWire | newlib-2.2.0.20150623/libgloss/debug.c:278-309 | the same as ReceiveFrame for every line that agrees with the frame in the low seven bits |
| GdbPacket.AnswerFrame | newlib-2.2.0.20150623/libgloss/debug.c:302-309 | every frame is answered with +, which is the documented reply exactly when the masked digits are right |
| GdbPacket.ReceiveOverlong | newlib-2.2.0.20150623/libgloss/debug.c:288-299 | data that fills the buffer is dropped and the next packet awaited, unless its sum is 255 |
| GdbPacket.OverlongUnanswered | newlib-2.2.0.20150623/libgloss/debug.c:288-299 | in that case nothing is sent back |
| GdbPacket.OverlongExists | newlib-2.2.0.20150623/libgloss/debug.c:288-299 | there is such a packet |
| GdbPacket.SendAndReceive | newlib-2.2.0.20150623/libgloss/debug.c:269-358 | what putpacket sends, retransmissions included, getpacket receives |
| StormFuture.Futures.Then | pctest/libstorm.h:342-353 | a new future takes over values and errors of the node |
| StormFuture.Futures.Except | pctest/libstorm.h:381-390 | the handler takes over the errors of the node, the values stay bound |
| StormFuture.Futures.Forward | pctest/libstorm.h:313-332 | a forwarded error follows the bindings to a handler, or is dropped at an unbound node |
| StormFuture.Futures.CallBody | pctest/libstorm.h:281-299 | events and new state of one body call: reject on the way, then the value |
| StormFuture.Futures.HandleBodyRet | pctest/libstorm.h:229-241 | the value is stored and goes on unless the node has been rejected |
| StormFuture.Futures.Run | pctest/libstorm.h:249-299 | the events and the new state of a whole run are those of the specification |
| StormFuture.NearestBinding | pctest/libstorm.h:313-332 | a forwarded error reaches the nearest node on the path whose forward side is not a forwarder |
| StormFuture.OneRun | pctest/libstorm.h:281-353 | bodies run in order up to the first that rejects, none after it, and control reaches the nearest node whose last binding was except |
| StormFuture.CallsAre | pctest/libstorm.h:281-299 | a run calls every body on its part of the path, in path order, each once and on its own input |
| StormFuture.PathSuffix | pctest/libstorm.h:342-353 | errors travel along the rest of the path the value was on |
| StormFuture.ThenDisplacesExcept | pctest/libstorm.h:342-390 | after any history in which then was bound to a future last, its errors go where those of the next future go, whatever except bound before |
| StormFuture.LastBindingDecides | pctest/libstorm.h:342-390 | of all bindings of a future only the last decides where errors go |
| StormFuture.SettledByVisits | pctest/libstorm.h:281-299 | after a run every future it went through holds what its own body made of its input, and no other is touched |
| StormFuture.RunStores | pctest/libstorm.h:236-299 | after a run a future it went through holds what its body returned, unless that returned nothing or rejecting threw, and has been rejected exactly if it was before or its body rejects; bodies, bindings and all other futures are unchanged |
| StormFuture.VisitsAre | pctest/libstorm.h:229-299 | a run goes from a future to the one its values are bound to, on what its body returned, until one is unbound, rejected, rejects or returns nothing |
| StormFuture.VisitsFollowPath | pctest/libstorm.h:281-299 | from fresh state those futures are the path up to the first that rejects |
| StormQueue.TaskQueue.Fire | pctest/libstorm.cc:11-14 | a firing task adds its tasks at the back, in order |
| StormQueue.TaskQueue.RunOne | pctest/libstorm.cc:21-30 | the task that fired is the one popped, although tasks were added in between |
| StormQueue.FiringPastPrefix | pctest/libstorm.cc:21-30 | while the first tasks of a queue fire, what they add gathers behind the rest |
| StormQueue.FiringIsLevelOrder | pctest/libstorm.cc:21-35 | the queue order is the level order of the spawn forest |
| StormQueue.LevelOrderIsComplete | pctest/libstorm.cc:35 | level order lists every task of the forest exactly as often as it occurs |
| StormQueue.TaskQueue.Drain | pctest/libstorm.cc:21-35 | running until nothing is left terminates and fires every task ever added exactly once, in level order |

## Left out

- RttUp.UpRing.Write: byte counts of 2^31 and more are not modelled, because the cast to int then takes the copy length out of range; blocking mode assumes a probe that never stops reading and a buffer of at least two bytes, without which the loop does not end.
- RttUp.UpRing.HostReads: the probe's own code is not in the repository; its steps are atomic.
- RttPrintf.ScaleUp: for precisions from 2^31 to about 2^31 + 32 the signed counter is decremented below -2^31, which is undefined in C; it is taken to stay negative.
- RttPrintf.Vprintf: formats that end inside a conversion, arguments of the wrong type, and the argument -2^31 for %d are undefined in C and excluded; lengths of 2^31 and more likewise; nothing is stated about the ring after a division by zero or a read outside the table.
- RttPrintf.PrintfDesc.PrintInt: -2^31, whose negation is undefined in C, is excluded.
- RttDown.DownRing.Read: buffer sizes of 2^31 and more are not modelled, because of the cast to int.
- Obstack.Stack.Free: objects in earlier chunks go to the out-of-line _obstack_free, which is not part of this model; nor are allocation failure, the _fast macros without room, and negative lengths.
- Leb128.ReadUleb128: buffers that make the shift reach 64 are undefined in C and excluded; the same holds for Leb128.ReadSleb128.
- GdbHex.Stub.ReadMemory: counts whose text does not fit the reply buffer are excluded, and so are negative counts.
- GdbHex.Mem2Hex: what the buffer holds after a fault is not stated.
- GdbPacket.Line.PutPacket: a failing outbyte is not modelled.
- StormFuture.OneRun: bodies that reject more than once, void bodies, ACC_REJ and Multi futures, and runs after a rejection are not part of the statement; value types are all integers.
- Inline assembly, builtins and __udiv_w_sdiv in longlong.h; the remaining headers of newlib/include, which declare but do not compute.
- SEGGER_RTT_WaitKey, the buffer configuration functions and the virtual terminals: easy, or foreign effects.
- The register, continue and kill commands of gdb_event_loop, debuglog, and the dead code after the early return in getpacket.
- The endless outer loop of the scheduler, shared pointers and template selection in libstorm.
