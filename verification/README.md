# A model of fake-slave's binlog decoder

fake-slave follows a MySQL server as a replica: it reads packets from a socket, cuts them into
binlog events and decodes the row images in them. This project models the byte-level part of
that, as the C code stands, and proves what it does for all inputs: which of the things it is
meant to do hold always, and exactly when the others do.

The code is modelled with its slips left in. Where a property one would expect is false of the
code, the theorem about it is an equivalence: the property holds if and only if a stated
condition on the input does.

## How the model is laid out

| file | what it holds |
|---|---|
| `Outcomes.dfy` | how a call can end: with a value, by touching memory it was not given (`Undefined`), or in a loop that no longer moves (`Diverges`) |
| `Bytes.dfy` | bytes, the numbers they spell, C integer conversions, the fixed-width readers |
| `Wire.dfy` | the sizes and codes a server writes by, as numbers of their own |
| `LengthEncoded.dfy` | length-encoded integers and strings |
| `DecimalFormat.dfy`, `Decimals.dfy` | the packed-decimal format, and its decoder with the loops |
| `Fractions.dfy`, `DecimalsExactness.dfy`, `DecimalRepair.dfy` | fractions read out of step with their words; exactly which decimals and types are decoded right; the same decoder with its two slips put right |
| `DecimalText.dfy` | the text made of a decoded decimal |
| `Temporal.dfy` | DATETIME2, DATE, TIME2, TIMESTAMP2, TIME |
| `TableMaps.dfy` | TABLE_MAP_EVENT and the metadata lookup |
| `Rows.dfy`, `RowsExactness.dfy` | the rows walk and its static counter; when the walk is exact, for images of any bytes |
| `Values.dfy`, `Schemas.dfy` | column values as a server stores them; tables of typed columns, rows of values, and when those very values come out |
| `Streams.dfy`, `BinlogStream.dfy` | the specification of reassembly in terms of the bytes alone; the buffer, the 32-bit loop and the moves that implement it |
| `Decoder.dfy`, `EndToEnd.dfy` | the dispatcher and its state; whole histories, from what a server means to what the decoder holds |

Code that works by changing things in place is a class or a method with loops
(`StreamReader`, `RowsDecoder`, `EventDecoder`, the decimal loops), proved equal to a
specification function; the theorems are about those functions and independent encoders.
`StreamReader` keeps a log of the events it hands to the dispatcher, and `Decoder.Decode` runs
the dispatcher over that log, each event followed by arbitrary memory.

What a server writes is never measured with the decoder's own tables. `Wire` gives the width of
table ids, the metadata bytes of each column type, the size of a bitmap and the event codes by
number; column type codes are numbers in `Values`, decimals and temporal values have encoders of
their own. That the decoder goes by the same sizes is proved (`TableMaps.WidthAsWritten`,
`MetaAsWritten`, `BitmapAsWritten`, `DecimalFormat.TableIsLeast`).

Three choices run through the model.

- Whether a plain `char` is signed is up to the C implementation, so it is a parameter,
  `signedChar`. No platform gets everything right: signed `char` breaks length bytes from 0x80
  on (`LengthEncoded.NumberRoundTrip`); unsigned `char` breaks negative TINYINTs
  (`Values.CellRoundTripIff`) and every NEWDECIMAL, whose `while (--len >= 0)` with a `char` len
  does not end there and leaves the memory it was given (`Decimals.BigEndianNumber`).
- Signed overflow of `long int` has no value (C leaves it undefined).
- Integers are stored and shifted as on a 64-bit little-endian machine with arithmetic right
  shift; a shift of the number 0 by 32 bits gives 0.

## What is proved, in short

- **Whole histories.** Describe what a server sends by what it means: format descriptions, table
  maps of typed columns, rows of values, NULLs among them. Delivered in any reads the buffer has
  room for, with anything behind the events in memory, it leaves the decoder in the right state
  after every event if and only if two things hold. Each event meets a condition on what was sent:
  server versions end within their field; lengths are below 0x80 where `char` is signed, four-byte
  table ids below 2^31; no value is NULL, and each is one that survives; every version 1 update
  with rows comes after an even number of row images from other events; there is no rows event of
  version 2, whose extra header the code takes for the column count. And the reads do not put the
  end of a table map at the end of the 4096-byte buffer, where the byte its late bitmask takes is
  outside (`EndToEnd.DeliveredIff`). One inserted row followed by one updated row already goes
  wrong.
- **Which values survive**, as an if and only if for every value of TINY, SHORT, INT24, LONG,
  LONGLONG, signed and UNSIGNED, FLOAT, DOUBLE, TIMESTAMP2, DATETIME2, DATE, TIME2, TIME and
  NEWDECIMAL: SHORT and LONGLONG only zero; of UNSIGNED columns, which a table map does not mark,
  INT24 and LONG below half their range; timestamps before 2038; TIME2 below 256 hours, and of the
  negative ones -128:00:00 alone; TIME only where it is not negative and its number is a multiple
  of 65792 below 2560000 (its sign field is never written at all).
- **Packed decimals.** A decimal is decoded right if and only if `char` is signed, both sides fit
  a long, no side of a negative one fills whole four-byte words, and a fraction of more than nine
  digits that do not fill whole groups has zeros in all but its last, short group. All values of a
  type and sign are right if and only if `char` is signed, there are at most 18 integral digits, at
  most 9 fraction digits or exactly 18, and, for negatives, neither side fills whole words. Negative DECIMAL(p,0) is therefore never right, while
  DECIMAL(9,4), the type in test/instructions.md, always is where `char` is signed. Its printed
  text is not: a positive number prints as nothing, one without places gets a point, and the zeros
  count is that of the digits present; from stored bytes to text, `DecimalText.StoredTextRightIff`
  says when it is right. With two slips put right every decimal would be decoded whose sides fit a long.
- **The stream.** The events dispatched, the bytes kept and the program's end depend only on the
  bytes received, never on how reads cut them; no byte is lost, doubled or reordered; against a
  stream of packets every event comes out as sent, except that a final event with an empty
  body waits for one more byte. The buffer never wedges if and only if every packet fits in
  it, and once full it stays full. A failed read (-1) loses the last byte received unless the
  buffer was empty. That is the specification, in unbounded arithmetic; the 32-bit loop of the
  program is it if and only if no announced size wraps the cursor around, which packets that fit
  the buffer never do. Where one does, the cut matters (`BinlogStream.CutMatters`).
- **Row images** are walked to the byte if and only if each column was written with the width the
  code gives its type. What stands behind a rows event in memory makes no difference if and only
  if its images are paired (`RowsExactness.TailIsIgnoredIff`). So where a run ends, bar the
  NULL bitmask of a table map, which is read one byte late, depends on nothing in memory but that
  there is such a byte only for runs whose updates are all paired (`EndToEnd.TailsIgnoredIff`); otherwise what the reads
  happened to put there decides (`RowsExactness.TailDecides`).
- DATETIME2 and DATE decoding are bijections on 5 and 3 bytes.

Documentation and code disagree in places; the model follows the code.
docs/supported-data-type.md lists SMALLINT and BIGINT as fully supported, but their readers
return 0 (binary_type.c:195-213); TIME is read through a byte swap that its layout does not
have (binary_type.c:30-31), and negative TIME2 as if it were sign and magnitude, which it is not
stored as (binary_type.c:42-73).

## Model

| member | source | states |
|---|---|---|
| Bytes.ReadInt3Exact | tools.c:29-46 | a three-byte number comes back exactly when it is in [-2^23, 2^23): the hand-made sign extension is two's complement |
| Bytes.ReadSignedExact | tools.c:58-61 | the word readers return a signed number from its bytes exactly when the width can hold it, whatever follows |
| Bytes.UnsignedFieldKeepsBits | binlog.c:34-50 | header fields declared unsigned but read through signed readers keep their unsigned value |
| LengthEncoded.GetNumberComputes | tools.c:98-125 | what the integer reader returns for the encoding of any 64-bit number, on either kind of `char` |
| LengthEncoded.NumberRoundTrip | tools.c:98-125 | value and length are right exactly below 2^31 on an unsigned-char machine and below 0x80 on a signed-char one |
| LengthEncoded.UnusedFirstBytes | tools.c:98-125 | the two first bytes no number starts with overrun the reader's local on an unsigned-char machine and are small negative numbers on a signed-char one |
| LengthEncoded.CutNumber | tools.c:98-125 | of an encoding cut short nothing is read on an unsigned-char machine |
| LengthEncoded.NumbersRoundTrip | tools.c:98-125 | a list of numbers read one after another comes back exactly when each is in reach of the reader, whatever follows |
| LengthEncoded.StringRoundTrip | tools.c:129-143 | a protocol string is recovered when its length is, and the reported length is then one too large |
| LengthEncoded.WriteThenRead | tools.c:129-154 | reading back a written string works exactly for lengths below 251 (0x80 if `char` is signed), and never with equal lengths |
| LengthEncoded.SetString | tools.c:146-154 | the writer fills the front of the buffer with length byte and string, leaves the rest alone, and returns the bytes written |
| DecimalFormat.TopBitFree | decimal.c:55-62 | every group size leaves the top bit of its bytes free: 10^k <= 2^(8b-1) |
| DecimalFormat.TableIsLeast | decimal.c:55-62 | and each takes the fewest bytes for which that holds, none for no digits: this determines the table |
| DecimalFormat.SignIsStored | decimal.c:58-66 | the sign can be read off the first stored byte of any decimal and flipping that byte gives the masked digits back |
| Decimals.BigEndianNumber | decimal.c:18-29 | the byte-filling loop and shift yield big-endian two's complement for 0 to 4 bytes where `char` is signed; where it is not, the loop leaves its memory |
| Decimals.XorUndoesComplement | decimal.c:38-46 | complemented bytes under mask -1 give the same group as plain bytes under mask 0: sign extension does no harm |
| Decimals.DecimalNumberPart | decimal.c:32-50 | the accumulator loop computes the specified part, or has no defined result: on signed overflow, and always where `char` is unsigned |
| Decimals.AccumulateFits | decimal.c:41-47 | from a non-negative seed no intermediate value overflows unless the final one does |
| Decimals.ReadDecimal | decimal.c:53-85 | the whole decoder, with its copy, flip and digit-counting loops, computes the specified result on either kind of `char` |
| Decimals.PartOfIntegral | decimal.c:32-50 | the digits before the point come back exactly when `char` is signed, they fit a long and it is not a negative side filling whole words |
| Fractions.PartOfFractional | decimal.c:32-50 | the digits after the point, of any number, come back exactly when besides they are at most nine, or in whole groups, or zero but for the last short group |
| Fractions.TwoGroupsOff | decimal.c:35-47 | by how much the reading of a fraction out of step with its words is off |
| Fractions.NeverOffByNothing | decimal.c:35-47 | and that this is never nothing unless the groups that are out of step are zero |
| DecimalsExactness.DecimalRoundTrip | decimal.c:53-85 | of any stored decimal of any type, sign, both parts and cursor are right exactly when `char` is signed and both sides survive, whatever follows |
| Fractions.LongFractionMisread | decimal.c:35-47 | a fraction of more than nine digits not in whole groups is misread if any digit before the short group is not zero, for either sign |
| DecimalsExactness.AlwaysRightIffRightType | decimal.c:53-85 | the exact set of (kind of `char`, sign, precision, scale) for which every value is decoded right |
| DecimalsExactness.DocumentedType | decimal.c:53-85 | DECIMAL(9,4) is right for both signs exactly where `char` is signed |
| DecimalsExactness.NegativeWithoutFraction | decimal.c:35-39 | no negative value of a type without fraction digits is decoded right |
| DecimalRepair.RepairedIntegralIff | decimal.c:32-50 | started from 0, the accumulator would return every integral side that fits a long, whatever its sign |
| DecimalRepair.RepairedFractionalIff | decimal.c:32-50 | and, taking the short group last, every fraction |
| DecimalText.DecimalAsString | decimal.c:87-105 | the filling loop, format and copy yield the specified C string, or overrun the ten-byte array |
| DecimalText.TextRightIff | decimal.c:87-105 | the text made is empty for non-negative numbers, and the text of a given decimal (a sign, the integral digits, and after a point exactly `scale` digits that denote the fraction, or no point) exactly when it is negative, has places, both parts are right and `zeros` is scale minus the printed digits |
| DecimalText.StoredTextRightIff | decimal.c:53-105 | from the stored bytes of any decimal to its text: right exactly when negative, with places, decoded right, and with the digits counted up from the uninitialised field coming to the places they leave free |
| Temporal.DateTime2Arithmetic | binary_type.c:98-149 | the two overlapping swapped loads yield the fields of the 40-bit big-endian number |
| Temporal.DateTime2Bijection | binary_type.c:98-149 | decoding inverts encoding on all in-range fields, and encoding inverts decoding on all five-byte strings |
| Temporal.DateBijection | binary_type.c:75-96 | the same for DATE on three bytes |
| Temporal.Time2RoundTrip | binary_type.c:42-73 | of a time stored as 0x800000 plus its signed magnitude: a non-negative one keeps minute, second and hour modulo 256; exactly those below 256 hours, and -128:00:00, come back |
| Temporal.Timestamp2RoundTrip | binary_type.c:153-164 | a timestamp is right exactly below 2^31 |
| Temporal.TimeReadsBackIff | binary_type.c:19-40 | hour, minute and second read are those of the stored number exactly when its low byte is 0, its other two are equal and it is below 2560000 (the sign field is never written and not part of this) |
| Temporal.TimeRoundTrip | binary_type.c:19-40 | so the fields of a stored time that is not negative come back exactly when its number hhmmss is a multiple of 65792 below 2560000 |
| Temporal.NegativeTimeMisread | binary_type.c:19-40 | and those of a negative one, stored in two's complement, never do |
| TableMaps.GetColumnMetaDef | rows_event.c:18-75 | the scan returns the sum of all earlier metadata lengths, or NULL for a column without metadata or out of range |
| TableMaps.MetaSlicesTile | rows_event.c:18-75 | the slices it hands out are disjoint and tile the metadata block |
| TableMaps.MetaAsWritten | rows_event.c:18-75 | the bytes the scan skips for a column type are those a server writes for it |
| TableMaps.MetaLookupFindsSlice | rows_event.c:18-75 | in a block assembled column by column as a server writes it, the lookup returns the place of the column's own metadata, and nothing for a column without any or out of range |
| TableMaps.WidthAsWritten | binlog.c:158-164 | table ids are read with the width the announced post-header lengths stand for: four bytes at 6, six at 8, at 10 for version 2, and before any announcement |
| TableMaps.BitmapAsWritten | binlog.c:192-198 | the length taken for a bitmap is that of one bit a column with less than a byte to spare; of a negative count it is the truncated quotient |
| TableMaps.TableIdInReachIff | binlog.c:158-164 | a four-byte table id is right exactly below 2^31 |
| TableMaps.TableMapRoundTrip | binlog.c:152-205 | every field of a table map written with the announced id width but the NULL bitmask is recovered; bitmask and length are one byte late, and outside the memory if nothing follows |
| TableMaps.MaskRecoveredIff | binlog.c:192-198 | the bitmask is right exactly when all its bytes equal the byte after the event |
| Rows.GetColumnVal | rows_event.c:78-168 | value and width of one column, whatever the uninitialised decimal byte holds; none for a NEWDECIMAL where `char` is unsigned |
| Rows.ReadColumns | rows_event.c:189-192 | the column loop visits the columns as the recursive walk does |
| Rows.FetchRowTakesOneOrTwo | rows_event.c:171-202 | a call takes two images exactly for an update with the counter odd, recursion is at most two deep, and an update leaves the counter odd |
| Rows.FetchRows | rows_event.c:271-273 | the rows loop diverges exactly when rows remain and there is no column; otherwise it ends |
| Rows.RowsDecoder.FetchARow | rows_event.c:171-202 | reads the specified images and leaves the static counter as specified |
| Rows.RowsDecoder.FetchAllRows | rows_event.c:271-273 | the rows loop as a loop over that |
| Rows.RowsDecoder.HandleRowsEvent | rows_event.c:206-276 | the whole event: header, rows, counter |
| RowsExactness.ImageInPlaceIff | rows_event.c:184-192 | for images of any bytes, a walk finds every column where it was written, and ends where the image ends, exactly when every width agrees (for which columns that is, see Schemas.CellFits) |
| RowsExactness.RowsWalked | rows_event.c:171-202 | paired images are walked exactly, ending exactly, whatever follows; unpaired ones fail if less than an image follows, and else one image too many is read |
| RowsExactness.RowsExactIff | rows_event.c:171-202 | whatever images are asked for, they are returned exactly when they are those written and these are paired |
| RowsExactness.RowsEventRoundTripIff | rows_event.c:206-276 | a serialized rows event of any bytes that fit comes back and stops at event_size - 19 exactly when paired, with its id and column count in reach |
| RowsExactness.TailIsIgnoredIff | rows_event.c:171-202 | the bytes of an event suffice for it, and what follows them makes no difference, exactly when its images are paired |
| RowsExactness.TailDecides | rows_event.c:193-197 | an unpaired update of one INT column on which two different tails have two different outcomes |
| RowsExactness.RunRightIff | rows_event.c:175-197 | over any run, updates are paired exactly when preceded by an even number of other images |
| RowsExactness.InsertThenUpdate | rows_event.c:175-197 | one inserted row, then one updated row, is misread |
| Values.CellRoundTripIff | rows_event.c:91-147 | for every value of a supported type, the exact condition for taking it from the bytes stored of it, on either kind of `char` |
| Values.OtherTypes | rows_event.c:103-167 | of the other column types YEAR is moved over by two bytes and returned as 0, all others are not moved over |
| Values.OtherTypeMisplaces | rows_event.c:189-192 | so a column of another type written with any bytes, and a YEAR in its one byte, misplaces what follows |
| Schemas.CellFits | rows_event.c:78-168 | in a table of typed columns the walk gives the column the width of the bytes stored, and takes from them the value taken from them alone; but for decimals where `char` is unsigned |
| Schemas.StoredRowsIff | rows_event.c:171-202 | rows of values, NULLs among them, come out as those values, each where its bytes were put, exactly when paired, without NULL and each surviving |
| Schemas.StoredEventIff | rows_event.c:206-276 | the same for a whole rows event, in the layout of versions 0 and 1, followed by anything; then header and cursor are right too, and the table id if in reach |
| Schemas.TwoNeverRight | rows_event.c:206-276 | rows of a version 2 event with its extra header never come out right, whatever the table and whatever follows |
| Schemas.OtherTableMisread | rows_event.c:171-202 | an INT row decoded with a TINY column of another, latest table map is misread, whatever its value |
| Streams.HeaderRoundTrip | binlog.c:30-53 | event headers read back |
| Streams.DrainAppend | binlog.c:339-388 | the specified loop may be interrupted between any two bytes without changing its outcome; the program's is that loop as BinlogStream.LoopIsDrainIff says |
| Streams.DrainSent | binlog.c:341-385 | every event of whole packets is dispatched as sent, but a final empty-body one is held back, and part of a packet is kept |
| Streams.DrainError | binlog.c:354-368 | an error packet after whole packets ends the program with exactly their events dispatched |
| Streams.NeverFullIff | binlog.c:335 | the buffer always has room after a drain exactly when every packet of the stream fits it |
| Streams.FullForEver | binlog.c:335-388 | a buffer that is full after a drain stays full and dispatches nothing again |
| Streams.EndOfStreamIdles | binlog.c:335 | reads of no bytes change nothing, so a closed connection leaves the loop idling |
| Streams.FailedReadLosesByte | binlog.c:335 | a failed read dispatches nothing and loses the last byte exactly when bytes are buffered |
| BinlogStream.NextCursorForward | binlog.c:376-384 | the unsigned cursor arithmetic is exact unless it wraps, and the event sizes for which the cursor does not advance |
| BinlogStream.LoopIsDrainIff | binlog.c:339-388 | the 32-bit loop ends, with the events, their ends in the buffer, rest and failure specified, exactly when no size left over wraps the cursor around |
| BinlogStream.TameRun | binlog.c:329-392 | over a run of reads that leave no such size the program is where draining all bytes received at once would leave it |
| BinlogStream.SentRunsAsSpecified | binlog.c:329-392 | which holds at every moment of a stream of packets that fit the buffer, for all reads it has room for |
| BinlogStream.TameCutsDoNotMatter | binlog.c:329-392 | how tame reads cut the stream makes no difference to the program |
| BinlogStream.TameLosesNothing | binlog.c:339-388 | the bytes it has dispatched followed by those it holds are the bytes received |
| BinlogStream.TameOnlyGrows | binlog.c:329-392 | a run that has seen less of the stream has dispatched a prefix |
| BinlogStream.CutMatters | binlog.c:376-384 | a family of streams with a size that wraps: read at once the loop never ends, read in two it does |
| BinlogStream.StreamReader.constructor | binlog.c:331-333 | an empty buffer |
| BinlogStream.StreamReader.Fill | binlog.c:335 | a read appends behind what is buffered |
| BinlogStream.StreamReader.PeelOne | binlog.c:341-385 | one turn of the inner loop: dispatch, stop, or end on an error packet, wherever the 32-bit cursor goes |
| BinlogStream.StreamReader.Peel | binlog.c:339-385 | the inner loop, when it ends, has dispatched the events of its turns and leaves the cursor before the rest |
| BinlogStream.StreamReader.Compact | binlog.c:387-388 | the overlapping copy moves the rest to the front |
| BinlogStream.StreamReader.Receive | binlog.c:335-388 | one turn of the outer loop, in 32-bit arithmetic |
| BinlogStream.StreamReader.ReceiveFailure | binlog.c:335-388 | one whose read failed: a byte less, then the inner loop; the outer one ends only with an empty buffer |
| BinlogStream.ReceiveIff | binlog.c:335-388 | a turn of the outer loop refines the specification exactly when no size left over wraps |
| BinlogStream.FailureIff | binlog.c:335-388 | and one whose read failed is the specified failed read under the same condition |
| Decoder.DescriptionRoundTripIff | binlog.c:80-106 | the post-header table is taken exactly when the server version is terminated within its field |
| Decoder.EventDecoder.constructor | binlog.c:16 | the state before any event |
| Decoder.EventDecoder.ParseBinlogEvents | binlog.c:207-325 | one event's effect on the state that outlives it |
| Decoder.DispatchDependsOnBody | binlog.c:207-325 | the effect of an event that can be decoded from its own bytes depends on the state and these bytes, but for the NULL bitmask, and for a table map failing exactly when the memory ends before that |
| Decoder.DecodeDependsOnBodies | binlog.c:207-325 | the same over a run of such events: one state, if any, and one if a byte follows every table map |
| Decoder.SameBytesSameState | binlog.c:329-392 | the same bytes, cut and surrounded in any way, lead to the same state if to any, and to one if a byte follows every table map; for events that can be decoded from their own bytes |
| EndToEnd.StepIff | binlog.c:207-325 | one event of any history, followed by anything or nothing, leads to the right state exactly when it meets the stated condition and a byte follows it if it is a table map |
| EndToEnd.HistoryIff | binlog.c:207-325 | the events of a whole history lead through the right states exactly when every one does, with the counter told from what was sent |
| EndToEnd.DeliveredIff | binlog.c:329-392 | the same for the program: delivered in any reads, with any memory between each event and the end of the buffer, it is right after every event exactly when the history meets the condition, event for event, and no table map ends where the buffer does |
| EndToEnd.TailsIgnoredIff | binlog.c:207-325 | of a history right but for the pairing of updates, where it ends depends on nothing behind the events but a byte after each table map, exactly when every update is paired |

## Left out

- Sockets, handshake, authentication, slave registration, configuration, logging and debug output: plumbing without properties of its own.
- query_event, rotate_event and the log-only cases: they change nothing that a later event is decoded with; here they leave the state as it is.
- Decoder.EventDecoder.ParseBinlogEvents: takes rotate and query events to have no effect, although rotate_event writes a zero one byte past the memory it allocated (binlog.c:67-69), which C leaves undefined, and both copy as many bytes as their event announces.
- Rows.GetColumnVal: takes the copy of a VARCHAR, whose length variable is partly uninitialised, to have no effect; that the walk moves over no byte of it is modelled.
- Decimals.ReadDecimal: gives no result for a scale above the precision, which no server writes; where they differ by a multiple of nine the source goes on with a negative length.
- FLOAT and DOUBLE as numbers: their bytes are kept, four and eight of them.
- Memory management: copied fields are sequences, and the realloc of the post-header table replaces it.
- BinlogStream.StreamReader.Receive: supposes that the inner loop ends, as do Peel and ReceiveFailure; when it does not, there is no state to speak of.
- Decoder.SameBytesSameState: supposes that the events can be decoded from their own bytes, as do DispatchDependsOnBody and DecodeDependsOnBodies; what that takes of a history is in EndToEnd.
- EndToEnd.DeliveredIff: the rows events of versions 0 and 1 in a history are of columns such as the latest table map has; of others, as a statement over several tables can write them, there is one case in Schemas.OtherTableMisread.
- Temporal types with fraction digits, YEAR and VARCHAR columns: the code gives them another width than they are written with, which RowsExactness.ImageInPlaceIff covers; they are not among the values of Values.
- ParseTableMap, ParseRowsHeader and FormatDescription are functions that return the struct the source fills in straight-line code.
- Checksums, the second present bitmap of version 2 updates, partial column images, and column types the code does not support: not implemented by the code; such columns have width 0 here as there.
