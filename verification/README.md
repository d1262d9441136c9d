# Protocols, codecs and solvers of the TDX client, verified

This project models the algorithms of the TDX market-data client and proves what they promise. It covers the
Python client `tdx_api.py` (wire codecs, reply parsers, the quote connection, the file download and the PBRPC
transfer) and three files of the C library: `tdx_bond_math.c` (schedules, discounting, yield),
`tdx_auction.c` (the call-auction series) and `tdx_bytes.c` (the growable buffer).

Check it with `dafny verify dfyconfig.toml` (Dafny 4.11).

## How the model is built

- A parser is specified by a function from the unread bytes to a value and the bytes left over (`Wire`). The
  cursor of the program is the class `Cursor.Reader`; each parsing method moves a reader and is proved equal
  to its function. The laws are then proved about the functions.
- A peer, a service, a socket or an allocator is an arbitrary function, or an arbitrary choice inside a
  method. The safety results hold for all of them. The delivery results name an honest one.
- The encoders in the `...Laws`, `...RoundTrip` and `...Service` modules are reference definitions of the
  other side of a protocol. The program itself contains only some of them (`pb_varint`, `pb_field`, the varint
  encoder of its self-test, `request_frame`).
- Raw prices, counts and lengths are unbounded integers with the limits of the program written out. Floating
  point is replaced by reals. `wire_number` loses nothing by this, since each of its intermediate values is a
  dyadic rational that a double holds exactly.

| file | what it holds |
|---|---|
| `Arithmetic`, `Options`, `Wire`, `Cursor` | shifts and minima, absent values, bytes, results, fixed-width fields, the varint function; the reader class |
| `VarintCodec`, `WireNumber` | the signed varint and its encoder; the 32-bit number format against IEEE 754-2019, section 3.4 |
| `Protobuf`, `ProtobufLaws`, `ProtobufExact` | the subset of the Protocol Buffers wire format |
| `Pbrpc`, `PbrpcSafety`, `PbrpcExact`, `PbrpcService` | the fragment transfer against any peer, exactly which fragments it accepts, and the transfer against an honest peer |
| `Quotes`, `QuoteSplit`, `QuoteRoundTrip`, `QuoteSafety`, `QuoteCuts` | quote replies and their record boundaries |
| `Klines`, `KlineLaws`, `Trades`, `TradeLaws` | bar and trade replies |
| `Stream`, `StreamLaws` | frames over a byte stream that is cut anywhere |
| `Download`, `DownloadLaws` | the block-wise download |
| `Csv`, `CsvLaws`, `BondFlows`, `BondFlowLaws`, `BondYield`, `BondYieldLaws` | bond lists, flows, value and yield |
| `Auction`, `AuctionSummary`, `AuctionLaws` | auction request, reply, series and summary |
| `Buffer`, `BufferLaws` | the buffer, its contents and its cost |

## What was found

- A compressed reply that happens to be as long as its body is taken as it is (`StreamLaws.AnswerReply`). The
  frame format shows compression only by the two sizes being different. Eleven bytes `a` are such a body
  (`StreamLaws.CompressionMissed`).
- The boundary scan of quote replies recovers the records that were sent if and only if each starts with a
  signature and holds no other (`QuoteSplit.SplitRight`). While every record starts with one, a second
  signature is always noticed. But the comment at `c/include/tdx_snapshot.h:23-28` promises that no reply is split wrongly, and for
  a reply with a record that has no signature this is not so: `QuoteCuts.WrongCutAccepted` is one that the whole
  parser accepts.
- The flows written for a schedule add up to the face and its interest only if the last entry is still to come
  and the array has room for every flow; `BondFlowLaws.WrittenConserve` says exactly when the face is among
  them. It is lost for dates out of order or a last date that cannot be read (`BondFlowLaws.FaceLost`), and when
  the array is too short (`BondFlowLaws.FaceCutOff`). A list of more than 64 dates repays the face at the 64th
  (`BondFlowLaws.LastOfSchedule`).
- A rate that cannot be read shifts every later rate to an earlier date (`BondFlowLaws.RateOfDate` for the
  condition, `BondFlowLaws.RateShifted` for a schedule).
- The text of a PBRPC reply's head is decoded even when its code is zero, because the message that quotes it is
  built before the test. A reply with a zero code and undecodable text, a lone byte 0xFF say, is refused
  (`PbrpcService.ReplyMeaning`).
- A PBRPC transfer without a total takes its first fragment for the whole result, and a download without a
  total takes its first short block for the last: both return a part as if it were complete
  (`PbrpcService.UnannouncedWhole`, `DownloadLaws.UnknownTotalExact`).
- Past half the address space the buffer grows to exactly what is needed, and the amortised bound no longer
  holds (`BufferLaws.AmortisedStep` for the condition, `BufferLaws.NotAmortised` for a run).
- `wire_number` differs from binary32 on every word outside zero and the positive normal numbers
  (`WireNumber.AgreesWithBinary32`).

## Model

| member | source | states |
|---|---|---|
| `Wire.Word32Put32` | c/src/tdx_bytes.c:108-115 | a 32-bit word written low byte first reads back as itself |
| `Wire.FixedWidthStable` | tdx_api.py:268-276 | bytes that arrive after a complete fixed-width field change neither its value nor what it consumes |
| `Cursor.Reader.Take` | tdx_api.py:268-272 | taking bytes returns exactly the next ones and advances past them, or refuses and stays; a reader past the end refuses even to take none |
| `Cursor.Reader.Varint` | tdx_api.py:278-286 | the reading loop computes the varint function of the unread bytes and leaves exactly the rest |
| `Cursor.Reader.Magnitude` | tdx_api.py:278-286 | the continuation loop, from any first byte |
| `Cursor.Reader.End` | tdx_api.py:288-289 | accepts only a reader that stands exactly at the end |
| `VarintCodec.PrintSigned` | tdx_api.py:1078-1086 | the encoder that patches the previous byte while it runs writes a head byte and groups of seven bits |
| `VarintCodec.SignedRoundTrip` | tdx_api.py:278-286 | decoding an encoded integer, whatever follows it, returns it and consumes exactly its bytes if and only if its magnitude is below 2^55; otherwise it is refused |
| `VarintCodec.VarintBounded` | tdx_api.py:278-286 | every accepted value lies strictly between -2^55 and 2^55, and what is left is a proper suffix |
| `VarintCodec.VarintExact` | tdx_api.py:278-286 | every input: the value of its sign, its six low bits and its digits of seven bits, up to the first byte without a top bit; truncated if it ends before that, too long after seven more bytes, and refused for nothing else, zero digits included |
| `VarintCodec.VarintsRoundTrip` | tdx_api.py:1088-1089 | reading k varints from the concatenation of k encodings recovers the list, exactly when each of them fits |
| `VarintCodec.VarintStable` | tdx_api.py:278-286 | an accepted varint is not changed by what follows it |
| `VarintCodec.ReadVarints` | tdx_api.py:357 | the loop that collects a run of varints agrees with the specification and moves the reader past exactly the run |
| `WireNumber.ClosedForm` | tdx_api.py:292-300 | the piecewise formula is 2^(s div 2^23 - 127) * (1 + (s mod 2^23) / 2^23) for the signed reading s of every nonzero word |
| `WireNumber.DecodeIncreasing` | tdx_api.py:292-300 | nonzero words decode to positive numbers, strictly increasing in the signed reading |
| `WireNumber.AgreesWithBinary32` | tdx_api.py:292-300 | the format equals IEEE 754 binary32 on zero and the positive normal words and on no other word |
| `Protobuf.PbVarint` | tdx_api.py:647-654 | writes the base-128 form of every 64-bit value and refuses every other |
| `Protobuf.ConsumeFrom` | tdx_api.py:667-675 | the reader's varint loop with its ten rounds agrees with its specification and consumes exactly one varint |
| `Protobuf.PbFields` | tdx_api.py:665-690 | the field loop computes the last-wins map of the message, or the first error in it |
| `ProtobufLaws.ConsumeRoundTrip` | tdx_api.py:647-675 | reading a written 64-bit value returns it and consumes exactly its bytes |
| `ProtobufLaws.ConsumeAccepted` | tdx_api.py:667-675 | every accepted varint is below 2^64, takes one to ten bytes and no fewer than the writer uses; the "unterminated" branch cannot be reached |
| `ProtobufExact.ConsumeExact` | tdx_api.py:667-675 | every input: the base-128 number up to the first byte without a top bit, refused exactly if it ends before that or if a tenth byte is above 1 |
| `ProtobufLaws.ParsePrint` | tdx_api.py:657-690 | for every list of printable fields, reading the concatenated fields gives the map in which the last value of each number wins |
| `ProtobufLaws.Int32RoundTrip` | tdx_api.py:693-699 | every int32 is recovered from its 64-bit sign-extended form |
| `ProtobufExact.MessageExact` | tdx_api.py:665-690 | a message is accepted with a map of fields if and only if it is a concatenation of fields on the wire of the types 0, 1, 2 and 5, each with a positive number, of which the last of each number is kept |
| `ProtobufExact.AccessExact` | tdx_api.py:693-699 | an integer is read from an absent field or a varint only, as the one int32 congruent to it modulo 2^32; bytes from an absent field or one with a length only |
| `Pbrpc.ReadReply` | tdx_api.py:710-715 | one reply is read into a fragment or the first error of its messages, in the program's order |
| `Pbrpc.QueryPbrpc` | tdx_api.py:707-729 | for every peer, the client loop posts exactly the requests of the transfer function, in order, and returns what it says |
| `PbrpcSafety.TransferSafety` | tdx_api.py:707-729 | against any peer: fragments tile the result without gap or overlap under one session and one total, within the byte limit at every round; the run ends within four rounds per byte of the total; an accepted result is the fragments put together |
| `PbrpcSafety.TransferAsks` | tdx_api.py:709-710 | round k asks for the bytes after the first k fragments, each round after the first under the positive session id of the first reply |
| `PbrpcSafety.ResultNotEmpty` | tdx_api.py:724-729 | no transfer returns an empty result, whatever the peer: an empty content never completes |
| `PbrpcExact.TransferExact` | tdx_api.py:707-729 | the converse of safety as well: a transfer returns a result if and only if the peer offers, one a round and each asked for after the ones before it, fragments that follow one another, are unfinished until the last (incomplete, at most three empty in a row, a positive session id) and are complete with it, and the result is those fragments put together |
| `PbrpcExact.CompleteAccepted` | tdx_api.py:724-728 | fragments so offered are accepted; a session id is needed only to go on |
| `PbrpcExact.SingleReply` | tdx_api.py:724-728 | a first reply that holds everything is the result under any session id, zero included |
| `PbrpcService.RequestMeaning` | tdx_api.py:702-704 | read by the same reader, a request carries the mark, the module and the body, and exactly when they are not zero the session and the next offset, and no other field |
| `PbrpcService.HeadMeaning` | tdx_api.py:711-713 | the text of a head is decoded before its code is looked at |
| `PbrpcService.ReplyMeaning` | tdx_api.py:710-715 | for every code and text, with what is zero written or left out: a printed reply is read as the fragment it announces if and only if the code is zero and the text can be decoded; an undecodable text is an error of its own whatever the code; otherwise the code is reported |
| `PbrpcService.TransferDelivers` | tdx_api.py:707-729 | however an honest peer cuts a non-empty content within the limits, the run ends with exactly the content, unless four empty fragments in a row or the end of the rounds come first |
| `PbrpcService.TransferCompletes` | tdx_api.py:707-729 | with at most three empty fragments in a row and four rounds per byte the client returns exactly the content |
| `PbrpcService.UnannouncedDelivers` | tdx_api.py:720-728 | with no total announced, the first fragment that is not empty is taken for the whole result, unless four empty ones or the end of the rounds come first |
| `PbrpcService.UnannouncedWhole` | tdx_api.py:720-728 | then the whole content is returned if and only if that fragment holds all of it |
| `Quotes.MatchesAscend` | tdx_api.py:347 | signature positions are strictly ascending and inside the body |
| `Quotes.ReadRecord` | tdx_api.py:351-377 | one record is decoded field by field as specified, with the security and duplicate checks in order |
| `Quotes.ParseQuotes` | tdx_api.py:337-378 | the whole parser computes the reply function, including the mask, the count, the split and the record loop |
| `QuoteSplit.SplitExact` | tdx_api.py:347-348 | a body that is n signed records is cut exactly at their boundaries, or refused, and refused exactly when some record holds a second signature |
| `QuoteSplit.SplitRight` | tdx_api.py:347-348 | for any list of records, signed or not, the split recovers exactly those records if and only if each starts with a signature and holds no other; an accepted cut is wrong exactly when some record does not start with one |
| `QuoteSplit.CutIsSigned` | tdx_api.py:347-350 | every record of an accepted cut starts with a signature |
| `QuoteSafety.SignatureMeaning` | tdx_api.py:347 | a signature is a market 0, 1 or 2 and the six decimal digits of a number |
| `QuoteCuts.WrongCut` | c/include/tdx_snapshot.h:23-28 | two records back to back, then bytes without a signature, declared as two records: the whole parser accepts the reply and answers with rows that were never sent as such |
| `QuoteCuts.WrongCutAccepted` | c/include/tdx_snapshot.h:23-28 | the concrete reply: the records of 600000 and 600001 sent as one, then a single byte 9 |
| `QuoteSplit.SplitRebuilds` | tdx_api.py:343-351 | whatever the body, an accepted cut has the declared number of records and they rebuild it |
| `QuoteRoundTrip.MaskIsXor` | tdx_api.py:338-339 | the nibble form of the mask is the bitwise exclusive or with 0x93 |
| `QuoteRoundTrip.MaskTwice` | tdx_api.py:338-339 | masking twice is the identity |
| `QuoteSafety.DivisorScale` | tdx_api.py:358 | for every code the scale is 100 for the bond prefixes 10, 11 and 12, 10 for the fund prefixes 15, 16, 50, 51, 52, 53, 56 and 58, and 1 otherwise, as byte values |
| `QuoteRoundTrip.RecordRoundTrip` | tdx_api.py:351-377 | a printed record, with prices as differences and any tail, is parsed to the same raw fields, scale and tail |
| `QuoteRoundTrip.ReplyRoundTrip` | tdx_api.py:337-378 | encoding distinct requested records and parsing the reply returns the same rows in order, or a refusal exactly when a record shows a second signature |
| `QuoteSafety.AcceptedReply` | tdx_api.py:337-378 | every accepted reply has the declared number of distinct, requested securities; its records rebuild the body, each with a signature, and frame the rows: market, code, start, tail, and the scale 1, 10 or 100 read off the first three bytes |
| `Klines.ParseKlines` | tdx_api.py:397-420 | the bar parser computes the reply function for stock and contract bars |
| `Klines.ReadBars` | tdx_api.py:401-418 | the bar loop carries the previous close as specified |
| `KlineLaws.PackedDate` | tdx_api.py:327-334 | every Gregorian date from 2004-01-01 to 2035-12-31 fits the packed word and is recovered from it |
| `KlineLaws.CalendarDates` | tdx_api.py:314-324 | a number is taken for a date exactly if it is year, month and day of the Gregorian calendar with a year of four digits, by the length of each month and the leap years |
| `KlineLaws.PackedOrder` | tdx_api.py:327-334 | packing keeps the order of dates |
| `KlineLaws.UnpackedDates` | tdx_api.py:327-334 | every accepted word is the packing of the date it yields |
| `KlineLaws.KlinesRoundTrip` | tdx_api.py:397-420 | printed stock bars parse to the same times and words, with prices measured from the running close, and are refused exactly when a volume is 2^63 or more |
| `KlineLaws.RowAt` | tdx_api.py:409-415 | each close is the running sum of the open and close differences, each open, high and low measured from it; amount and counts are those sent and the volume is the one sent rounded to the nearest whole number |
| `KlineLaws.PricesRoundTrip` | tdx_api.py:397-420 | encoding stock bars with the chain of differences and parsing returns the same time, four prices, amount, counts and rounded volume of every bar |
| `KlineLaws.ContractsRoundTrip` | tdx_api.py:397-420 | printed contract bars behind any header parse back with every time and word |
| `KlineLaws.ContractRowAt` | tdx_api.py:405-407 | the seven words of a contract bar are open, high, low, close, open interest, volume and auxiliary price, in this order |
| `KlineLaws.KlinesPrefixFree` | tdx_api.py:397-420 | no accepted reply is a strict prefix of another one accepted under the same arguments |
| `KlineLaws.VolumeBound` | tdx_api.py:412-414 | the bound 2^63 on the volume is one on its word: below 0x5F000000, or with the top bit set |
| `KlineLaws.AcceptedBars` | tdx_api.py:397-420 | any accepted reply has as many rows as its count word says, no more than asked for, each with a date of the calendar, a minute of the day and a volume that is not negative |
| `Trades.ParseTrades` | tdx_api.py:423-448 | the trade parser computes the reply function, with the optional base price and the sign checks |
| `TradeLaws.TradesRoundTrip` | tdx_api.py:423-448 | printed undated stock trades parse back with running prices, and are refused exactly when a price, volume or count is negative |
| `TradeLaws.RowAt` | tdx_api.py:440-445 | each row has the fields as sent and the running sum of the differences as its price |
| `TradeLaws.DatedTradesRoundTrip` | tdx_api.py:427-448 | the same for dated replies, which are refused exactly when the base word is not finite or a value is negative |
| `TradeLaws.ContractTradesRoundTrip` | tdx_api.py:423-448 | printed contract trades behind any header parse back with every field, the signed change of interest included |
| `TradeLaws.ContractRowAt` | tdx_api.py:432-438 | row k of contract trades has the fields of the k-th trade and its index |
| `TradeLaws.TradesPrefixFree` | tdx_api.py:423-448 | no accepted reply is a strict prefix of another one accepted under the same arguments |
| `TradeLaws.AcceptedTrades` | tdx_api.py:423-448 | any accepted reply has as many rows as its count word says, no more than asked for, numbered from the start asked for, each at a minute of the day and with nothing negative, and a base price exactly if it is dated and of a stock |
| `Stream.Connection.constructor` | tdx_api.py:192-195 | a new connection starts at the id of its kind |
| `Stream.Connection.Recv` | tdx_api.py:215 | a receive delivers some of the bytes that are there, and nothing only at the end of the stream |
| `Stream.Connection.ReadExact` | tdx_api.py:212-218 | however the stream is cut, exactly the next count bytes are returned and consumed, or the connection is reported closed |
| `Stream.Connection.Call` | tdx_api.py:220-235 | a call advances the id modulo 2^32, sends one frame and consumes exactly its answer |
| `Stream.Connection.Handshake` | tdx_api.py:196-201 | the first exchange of either kind: the frame it sends, the answer it takes, and the length demanded of the ordinary one |
| `Stream.CallAll` | tdx_api.py:220-235 | a run of calls returns the bodies of the session function in order, leaves what follows, and sends exactly the frames and ends with the id that the run function says, failed runs included |
| `StreamLaws.FrameMeaning` | tdx_api.py:184-188 | a frame is refused exactly when command or body does not fit, and every byte of it is accounted for |
| `StreamLaws.FirstFrame` | tdx_api.py:192-200 | the first frame of an ordinary connection byte for byte, and that of an expansion connection up to its setup bytes |
| `StreamLaws.AnswerReply` | tdx_api.py:220-235 | a matching reply frame is answered with its body, unless a compressed payload is as long as the body; exactly 16 bytes and the payload are consumed |
| `StreamLaws.CompressionMissed` | tdx_api.py:229-234 | a concrete body whose compressed form is as long as the body: the compressed bytes are returned |
| `StreamLaws.AnswerMismatch` | tdx_api.py:227 | a reply under another id or command is refused on its header, whatever follows |
| `StreamLaws.SessionAnswers` | tdx_api.py:212-235 | for any sequence of calls and the concatenated matching replies, the bodies come back in order from any starting id, and what follows is left |
| `StreamLaws.AnswerInverse` | tdx_api.py:220-235 | whatever the bytes, an accepted answer is that to a well-formed reply under the id of the call, followed by what is left |
| `StreamLaws.SessionInverse` | tdx_api.py:212-235 | whatever the stream, a run of calls that succeeds has read exactly one well-formed reply to each, in order and under consecutive ids, and returned their bodies |
| `StreamLaws.SessionFrames` | tdx_api.py:220-223 | a run that succeeds has sent one frame for each request under consecutive ids and used up as many ids modulo 2^32 |
| `Download.ReadInfo` | tdx_api.py:582-587 | the file information is read as specified |
| `Download.ReadBlock` | tdx_api.py:591-595 | a block reply is read as specified |
| `Download.TcpFile` | tdx_api.py:577-602 | for every behaviour of the other end: the commands sent, information request and block bodies with the path included, in order, and the file or error returned |
| `Download.FetchBlocks` | tdx_api.py:588-599 | the block loop sends exactly the commands for the asks of the transfer function and returns its bytes |
| `Download.ReadAnnounced` | tdx_api.py:578-587 | what is sent and learned before the first block |
| `DownloadLaws.InfoRoundTrip` | tdx_api.py:583-587 | which file information is accepted, and what it announces |
| `DownloadLaws.BlockExact` | tdx_api.py:591-595 | a block is accepted exactly if its size is within what was asked for and just so many bytes follow |
| `DownloadLaws.RemoteMeaning` | tdx_api.py:565-568 | a path is refused exactly if it starts with a slash of either kind, has a component of two dots between slashes, or a NUL |
| `DownloadLaws.HexMeaning` | tdx_api.py:585-587 | a checksum is accepted exactly if its characters are hexadecimal digits of either case, and kept in lower case |
| `DownloadLaws.BlockBodyMeaning` | tdx_api.py:565-574 | a block request is built exactly for a relative ASCII path that cannot climb, has no NUL and fits its field, and an offset and count of 32 bits; it has 308 bytes from which offset, count and path read back |
| `DownloadLaws.InfoBodyMeaning` | tdx_api.py:580-582 | an information request is built exactly for such a path of at most 39 characters, in 40 bytes |
| `DownloadLaws.DownloadSafety` | tdx_api.py:577-602 | with any peer: an accepted file has the announced length and checksum and respects the limit; every request stays inside the total and the limit, its offset fits 32 bits; there are at most as many requests as bytes, or without a total one more than whole blocks fit the limit |
| `DownloadLaws.KnownTotal` | tdx_api.py:588-599 | with the total known, any peer that returns between one byte and what was asked delivers exactly the file, in one request per started block if the blocks are full |
| `DownloadLaws.UnknownTotal` | tdx_api.py:588-599 | without a total, full blocks deliver exactly the file in one request more than it has whole blocks |
| `DownloadLaws.UnknownTotalExact` | tdx_api.py:588-599 | without a total, any peer that returns between one byte and what was asked has a first part of the file accepted, which is the whole file if and only if no answer before the end is short |
| `DownloadLaws.DownloadDelivers` | tdx_api.py:577-602 | the whole command returns the file if and only if its checksum is the announced one |
| `DownloadLaws.FileDelivers` | tdx_api.py:565-602 | over a connection, with path, offsets and counts in the bytes of the requests: a host that obliges delivers exactly the file, refused if and only if its checksum differs |
| `DownloadLaws.SentMeaning` | tdx_api.py:577-602 | what goes out for a path that fits: one information request if the file is announced, and then one block request for each ask, in order, with its offset, count and path in the bytes |
| `DownloadLaws.FileDeliversUnknown` | tdx_api.py:588-599 | without an announced total, a host that fills every block it can delivers exactly the file over the connection |
| `Csv.CsvPieces` | c/src/tdx_bond_math.c:14-42 | for every text and capacity the one-pass scanner writes the first pieces of split on commas, trim, drop empties, and nothing beyond |
| `Csv.CsvNumbers` | c/src/tdx_bond_math.c:44-68 | the numbers written are those of the pieces that read as numbers, in order, at most 64 |
| `CsvLaws.PiecesOrdered` | c/src/tdx_bond_math.c:14-42 | pieces are in bounds, increasing and disjoint with a comma between any two, hold no comma, have no blank at either end, and leave out nothing but commas and blanks |
| `CsvLaws.Rescan` | c/src/tdx_bond_math.c:14-42 | joining clean texts with commas and scanning again is the identity |
| `BondFlows.AccruedInterest` | c/src/tdx_bond_math.c:70-95 | accrued interest exists exactly for three real dates, a rate and a day inside the period, and is face times rate times days over 365 |
| `BondFlows.ReadSchedule` | c/src/tdx_bond_math.c:113-125 | date piece k is paired with the k-th rate that can be read, up to the shorter list |
| `BondFlows.WriteFlows` | c/src/tdx_bond_math.c:116-139 | the array receives the first remaining flows, as far as it has room |
| `BondFlows.BondRemainingFlows` | c/src/tdx_bond_math.c:97-140 | the whole command writes the remaining flows of the schedule read from the two lists, or nothing |
| `BondFlowLaws.FlowsConserve` | c/src/tdx_bond_math.c:116-138 | all remaining flows together add up to face times the remaining rates, plus the face if and only if the last entry remains |
| `BondFlowLaws.WrittenConserve` | c/src/tdx_bond_math.c:97-140 | for any capacity, what is written comes from the first so many entries, all of them exactly if every remaining flow has room, and adds up to face times their remaining rates, plus the face if and only if all flows have room and the last entry remains |
| `BondFlowLaws.NoFaceWritten` | c/src/tdx_bond_math.c:129-134 | without room for all, no flow written repays the face |
| `BondFlowLaws.FaceCutOff` | c/src/tdx_bond_math.c:129-130 | two payments in order with room for one: 5 is written for a face of 100 |
| `BondFlowLaws.LastOfSchedule` | c/src/tdx_bond_math.c:113-115 | a schedule ends with the 64th date at the latest, and that date decides whether the face is repaid |
| `BondFlowLaws.FaceLost` | c/src/tdx_bond_math.c:123-134 | with the later date first, or with a last date that cannot be read, the flows of a bond of face 100 add up to 5 |
| `BondFlowLaws.RateOfDate` | c/src/tdx_bond_math.c:53-65 | a readable rate goes to its own date if and only if every rate before it can be read, and to an earlier date otherwise |
| `BondFlowLaws.RateShifted` | c/src/tdx_bond_math.c:53-65 | for dates "a,b" and rates "x,5" the date a gets the rate of b, b is dropped and the face is repaid at a |
| `BondFlowLaws.AscendingFlows` | c/src/tdx_bond_math.c:126-137 | for ascending dates the flows are exactly the entries after the date, at positive, non-decreasing times, the face repaid in the last one only |
| `BondFlowLaws.FlowCount` | c/src/tdx_bond_math.c:126-128 | there are as many flows as entries after the date |
| `BondFlowLaws.FlowsExact` | c/src/tdx_bond_math.c:126-138 | the flows are, entry by entry in order, those after the date: face times rate, the days to the date over 365, and the face added at the last entry |
| `BondFlowLaws.DateOfEntry` | c/src/tdx_bond_math.c:115-125 | every entry has the date of its own piece of the list, none if the piece is longer than 15 characters or not a date |
| `BondFlowLaws.NumberOfPiece` | c/src/tdx_bond_math.c:53-65 | a piece of at most 63 characters reads as the number found in it, a longer one as none |
| `BondFlowLaws.AscendingTotal` | c/src/tdx_bond_math.c:97-140 | if any remain, the amounts add up to face * (1 + sum of their rates) |
| `BondYield.DiscountedValue` | c/src/tdx_bond_math.c:142-163 | the loop computes the sum of discounted payments, or nothing where a factor is missing or not positive |
| `BondYield.SolveYtm` | c/src/tdx_bond_math.c:165-196 | the 160-step loop computes the yield function |
| `BondYieldLaws.BisectBrackets` | c/src/tdx_bond_math.c:182-193 | halving keeps value(low) >= price >= value(high), stays inside and halves the interval exactly |
| `BondYieldLaws.RootStays` | c/src/tdx_bond_math.c:184-193 | for a strictly decreasing value an exact root never leaves the interval |
| `BondYieldLaws.BisectTies` | c/src/tdx_bond_math.c:184-193 | a middle that is worth exactly the price becomes the upper end |
| `BondYieldLaws.YieldAccurate` | c/src/tdx_bond_math.c:165-196 | the yield is within 10.999999 / 2^161 of an exact root |
| `BondYieldLaws.YieldExists` | c/src/tdx_bond_math.c:175-183 | where every rate has a value, a yield is found exactly for positive prices between the values at the two ends |
| `BondYieldLaws.YieldAntitone` | c/src/tdx_bond_math.c:165-196 | of two prices for the same flows the higher one never gets the higher yield, with no assumption on the value |
| `BondYieldLaws.ValueDecreasing` | c/src/tdx_bond_math.c:142-163 | non-negative payments at positive times, not all zero, are worth strictly less at a higher rate |
| `BondYieldLaws.UndiscountedValue` | c/src/tdx_bond_math.c:142-163 | at rate zero the value is the plain sum of the payments |
| `BondYieldLaws.SingleValue` | c/src/tdx_bond_math.c:152-158 | one payment is worth its amount over the power of its own time, or nothing if that is missing or not positive |
| `BondYieldLaws.AdditiveValue` | c/src/tdx_bond_math.c:149-162 | two lists of payments together are worth the sum of their values, or nothing if either is |
| `BondYieldLaws.NoValue` | c/src/tdx_bond_math.c:142-148 | no payments, or a rate of minus one or less, have no value |
| `BondYieldLaws.BondYieldAccurate` | c/src/tdx_bond_math.c:97-196 | for a schedule with ascending dates, a positive face and no negative rate, the yield of its remaining flows is that accurate |
| `Auction.Series.Push` | c/src/tdx_auction.c:46-61 | a push appends the point, doubling the room from 128, or changes nothing when memory is refused |
| `Auction.Series.Parse` | c/src/tdx_auction.c:103-166 | the series gains the records of the reply as specified; the request parameters are kept once the length fits |
| `Auction.ReadRecord` | c/src/tdx_auction.c:127-161 | a record is accepted and turned into a point as specified |
| `Auction.BuildRequest` | c/src/tdx_auction.c:63-101 | a request is built exactly for valid arguments with room in the buffer, and replaces what the buffer held; refused arguments leave the buffer alone; without memory a proper first part of the request stays in it |
| `AuctionLaws.RequestMeaning` | c/src/tdx_auction.c:89-98 | the request has 28 bytes from which every argument reads back |
| `AuctionLaws.RequestableMeaning` | c/src/tdx_auction.c:63-88 | valid arguments are a market 0, 1 or 2, a code of six decimal digits, and one to five thousand records |
| `AuctionLaws.RequestRoom` | c/src/tdx_auction.c:87-98 | a request finds room exactly when its 28 bytes can be appended to the emptied buffer |
| `AuctionLaws.ReceivedRoom` | c/src/tdx_auction.c:46-61 | a received series has the least room of 128 points doubled so and so often that holds it, whatever the allocator does |
| `AuctionLaws.LoadAppends` | c/src/tdx_auction.c:127-164 | whatever the allocator does, the series gains the first so many records, all acceptable: all on success, and on failure the next one was bad or found no memory |
| `AuctionLaws.ReplyAccepted` | c/src/tdx_auction.c:103-166 | with memory, exactly the replies of the announced length with acceptable records are accepted, one point per record in order |
| `AuctionLaws.RecordRoundTrip` | c/src/tdx_auction.c:127-161 | which records are accepted, and that the point has the fields written: direction and size agree with the signed volume, the direction is zero exactly for none, and the amount is price times lots times a hundred |
| `AuctionLaws.ReplyRoundTrip` | c/src/tdx_auction.c:103-166 | a written series is received point for point |
| `AuctionSummary.SummarizeSegment` | c/src/tdx_auction.c:172-220 | the filtered pass over all points gives the summary of the segment's own subsequence: ends, lowest and highest price, first peak of the unmatched volume, changes of direction, descents of matched volume |
| `AuctionSummary.Summarize` | c/src/tdx_auction.c:222-246 | both segments, the reserved count and the first of the widest gaps between neighbours; a missing series gives an empty summary |
| `AuctionSummary.SummaryUnique` | c/src/tdx_auction.c:172-220 | the description determines every field of a segment's summary |
| `AuctionLaws.SummaryDetermined` | c/src/tdx_auction.c:222-246 | the summary is determined by the points, and the counts of the two segments add up to the total |
| `AuctionLaws.WidestGap` | c/src/tdx_auction.c:234-244 | the gap reported is the time between two neighbouring points, and no two are further apart |
| `AuctionLaws.SegmentsPartition` | c/src/tdx_auction.c:181-182 | the segments share out the points, none lost and none counted twice |
| `AuctionLaws.SideOfNoon` | c/src/tdx_auction.c:181-182 | each point of a segment lies on the segment's side of noon |
| `AuctionLaws.OrderKept` | c/src/tdx_auction.c:181-182 | a segment holds its points in the order of the series |
| `AuctionLaws.NoChanges` | c/src/tdx_auction.c:205-209 | no flip is counted exactly when all leftover volume was on one side |
| `AuctionLaws.NoDescents` | c/src/tdx_auction.c:200-204 | no violation is counted exactly when the matched volume never falls in the segment |
| `AuctionLaws.ChangesCount` | c/src/tdx_auction.c:205-209 | the flips are as many as there are places where an entry differs from the one before it |
| `AuctionLaws.DirectionsKept` | c/src/tdx_auction.c:205-209 | the entries compared are the directions of the points that have one, all of them, in order |
| `AuctionLaws.DescentsCount` | c/src/tdx_auction.c:200-204 | the violations are as many as there are points with less matched than the one before |
| `AuctionLaws.ReservedCount` | c/src/tdx_auction.c:222-246 | the reserved count is that of the points whose reserved byte is not zero |
| `Buffer.NextCapacity` | c/src/tdx_bytes.c:52-59 | the growth loop computes the doubled capacity, or exactly what is needed where doubling would overflow |
| `Buffer.Buf.constructor` | c/src/tdx_bytes.c:18-24 | a new buffer is empty and owns nothing |
| `Buffer.Buf.Reserve` | c/src/tdx_bytes.c:35-68 | room is made or nothing changes; the contents stay either way |
| `Buffer.Buf.Push` | c/src/tdx_bytes.c:70-75 | appends the byte or changes nothing |
| `Buffer.Buf.Append` | c/src/tdx_bytes.c:77-89 | appends the bytes or changes nothing; nothing to append succeeds without a source |
| `Buffer.Buf.AppendZeros` | c/src/tdx_bytes.c:91-99 | appends so many zeros or changes nothing |
| `Buffer.Buf.AppendU16le` | c/src/tdx_bytes.c:101-106 | appends the two bytes of the word, low one first |
| `Buffer.Buf.AppendU32le` | c/src/tdx_bytes.c:108-115 | appends the four bytes of the word, low one first |
| `Buffer.Buf.ClearAll` | c/src/tdx_bytes.c:117-120 | empties the buffer and keeps its block |
| `Buffer.Buf.Free` | c/src/tdx_bytes.c:26-33 | returns to the empty buffer |
| `BufferLaws.ContentsAreLog` | c/src/tdx_bytes.c:35-120 | after any run of calls the contents are the bytes reported appended since the last clear |
| `BufferLaws.FailuresChangeNothing` | c/src/tdx_bytes.c:35-99 | leaving the failed calls out of a run leads to the same buffer |
| `BufferLaws.WhenSucceeds` | c/src/tdx_bytes.c:35-99 | a call succeeds exactly when the length it asks for fits, into the largest size with memory and into the block without |
| `BufferLaws.Accounts` | c/src/tdx_bytes.c:48-67 | the blocks counted are those at which the capacity changes, and the largest length is that of the successful calls |
| `BufferLaws.AmortisedRun` | c/src/tdx_bytes.c:52-66 | for sizes of any width: while no length over half the address space is needed, the capacity is the least of 256, 512 and so on that holds the largest length, and all blocks obtained add up to at most twice the last one |
| `BufferLaws.AmortisedStep` | c/src/tdx_bytes.c:52-66 | one call breaks these bounds exactly when it succeeds in growing the buffer past half the address space to a length that the blocks obtained before already exceed, in terms of the state before the call |
| `BufferLaws.NotAmortised` | c/src/tdx_bytes.c:54-57 | for sizes of any width, a run of three calls past half the address space that breaks them |
| `BufferLaws.Limits` | c/src/tdx_bytes.c:54 | the widths covered include sizes of 16, 32 and 64 bits |
| `Wire.WordBytes` | c/src/tdx_bytes.c:156-163 | any four bytes are the little-endian form of the word they read as |
| `BufferLaws.AppendedWord` | c/src/tdx_bytes.c:108-167 | a word appended reads back from the end of the contents, signed or not |

## Left out

- Floating point: rounding, overflow and not-a-number checks of the bond, auction and bar arithmetic are not modelled; sums, products and quotients are over reals. Only the finiteness of a power, and of a binary32 word, is kept.
- `BondYieldLaws.ValueDecreasing`: rests on `pow` being positive and strictly increasing in its base for positive exponents, which is an assumption (`IsPower`), not proved of the C library.
- Text: `strtod`, calendar day numbers (`tdx_date.h`), GB18030 and UTF-8 decoding, upper and lower case beyond ASCII, and the decimal text of dates are parameters or stay raw.
- zlib, MD5, JSON and HTTP: the decompressor and the checksum are parameters; a PBRPC result is the bytes that go to the JSON reader, and posting a request is calling the peer.
- `Stream.Connection.Call`: a compressed payload longer than announced is always reported as bad compression, where the program reports a wrong length if it is longer by exactly one byte.
- `StreamLaws.SessionAnswers`: assumes that compression is visible in the sizes; without that `StreamLaws.AnswerReply` says what is returned instead.
- Price scaling and labels: prices stay raw (quotes keep the divisor beside them), and the minute labels, side names and security names of the JSON output are not produced.
- Bids and asks of a quote are kept together, one rung of the book at a time, instead of in two lists.
- C null pointers are modelled where a function treats them as a case of its own (lists, flows, append source, series); null output pointers and error message buffers are not.
- `Auction.BuildRequest`: one answer of the allocator holds for the whole request, and the code is a byte sequence rather than a terminated string.
- `Auction.Series.Push`: overflow of the block size in bytes is not modelled; it needs more points than memory can hold.
- `tdx_buf_append_printf`, the session functions of the auction file, and the remaining files of the C library and the client (securities, timelines, expansion quotes, catalogs, configuration files, command line).
