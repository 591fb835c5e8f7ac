# DNS message codec of dns.cpp, modelled in Dafny

This project models the DNS message codec of the simple async DNS client in
`dns.cpp`. The codec follows RFC 1035 and has two halves.

- **The decoder.** It reads a response message:
  - big-endian 16- and 32-bit fields;
  - domain names made of length-prefixed labels and compression pointers;
  - question entries and resource records;
  - the RDATA of A, NS, CNAME and AAAA records;
  - the header with its RCODE gate;
  - the four sections, read with one cursor threaded through them.
- **The encoder.** It builds a recursive A/IN query for one host:
  - a fixed 12-byte header;
  - the host written as labels;
  - TYPE A and CLASS IN.

Buffers are `seq<Byte>`, with `Byte` the integers 0 to 255. Every decoder is a
pure function that returns a `Result`: a value, or a `Failure`. Each decoder
that advances a cursor returns `Result<Decoded<T>>`, the decoded value together
with the cursor after it. The RDATA interpreter returns `Result<string>`. The
section readers and the whole-message parser return `Result<Message>`. The decoders never check their `end`
argument. Their only caller passes the received byte count as `end`, with the
message at the start of a 1024-byte receive array that starts zeroed
(async_udp_client.h:19, 49, 93). A read past `end` therefore sees the rest of
that array. The model's buffer is the received bytes, and it reports any read
past them as `Truncated`.

Pointer following in `ParseHost` costs one unit of `fuel` per hop. The
message parser (`ParseName`) gives it `|buf|` hops. That is as good as any
larger number (`FuelSuffices`): a chain of pointers that ends does so within
`|buf|` hops. So `PointerLoop` is reported exactly when the chain from the
name's start never ends (`LoopMeansEndless`), where the source would recurse
without bound.

The encoder is modelled twice:
- as methods (`ScanChar`, `WriteLabels`, `BuildDnsQueryPacket`) that mirror
  the C loop, with its `lp` slot back-patching and its `last` variable;
- as a functional reference (`QueryName`, `QueryPacket`) built from the
  host's "."-separated runs.

The methods are proved to return exactly the reference. Then:
- round-trip lemmas show that the decoder reads a built query back;
- the Findings module records three places where the source does not do what
  it evidently intends, each next to its corrected behaviour.

Files, one module each:
- `wire.dfy`: bytes, results and the integer readers.
- `text.dfy`: splitting, joining and decimal rendering.
- `names.dfy`: the name decoder and label encoding.
- `records.dfy`: question, resource record and RDATA.
- `response.dfy`: the header, section loops and the whole response.
- `query.dfy`: the query builder.
- `roundtrip.dfy`: builder then parser.
- `findings.dfy`: the three findings.

## Model

| member | source | states |
|---|---|---|
| Wire.ParseUnsignedShort | dns.cpp:63-68 | Succeeds exactly when two bytes remain at the cursor, returns the cursor advanced by 2 and a value below 2^16; otherwise the read is Truncated |
| Wire.ParseUnsignedInt | dns.cpp:54-61 | Succeeds exactly when four bytes remain, returns the cursor advanced by 4 and a value below 2^32; otherwise Truncated |
| Wire.ShortRoundTrip | dns.cpp:63-68 | Reading two bytes written in network order (`0xff & (v >> 8)`, `0xff & v`) gives back v and pos + 2 |
| Wire.ShortBytesOfRead | dns.cpp:63-68 | Conversely, any two bytes are the network-order encoding of the value read from them, so the reader and the writer are inverse bijections |
| Wire.IntRoundTrip | dns.cpp:54-61 | Reading four bytes written in network order gives back the 32-bit value and pos + 4 |
| Wire.IntBytesOfRead | dns.cpp:54-61 | Conversely, any four bytes are the network-order encoding of the value read from them |
| Text.JoinSplit | dns.cpp:379-398 | Joining the "."-separated runs the builder walks through with "." gives the host back, for every host |
| Text.SplitJoin | dns.cpp:379-398 | Splitting "."-free runs joined by "." gives the runs back |
| Text.Decimal | dns.cpp:19-22 | The `%d` rendering of a non-negative number: digits only, a single digit exactly for numbers below 10, "0" only for zero, and no leading zero |
| Text.DecimalRoundTrip | dns.cpp:19-22 | The `%d` rendering of a non-negative number denotes that number |
| Names.IsPointer | dns.cpp:76 | The loop stops at a length byte with either top bit set (`len & 0xc0`), that is, exactly at bytes of 0x40 and above |
| Names.PointerOffset | dns.cpp:84-85 | The offset `(0xc0 ^ len) << 8` or-ed with the low byte is below 2^16, and for a standard pointer (both top bits set) it is the 14-bit offset (len - 0xC0) * 256 + low, below 0x4000 |
| Names.ParseHost | dns.cpp:70-89 | A decoded name leaves the cursor strictly after its start and inside the buffer; every failure is a malformed name (a read past the end, or more pointer hops than the fuel allows) |
| Names.ParseName | dns.cpp:70-89 | The entry point every parser calls: a decoded name leaves the cursor after its start and inside the buffer, and every failure is a malformed name |
| Names.LoopIffHops | dns.cpp:84-87 | ParseHost runs out of `fuel` hops exactly when `fuel + 1` pointers follow one another from the name's start |
| Names.LoopMeansEndless | dns.cpp:84-87 | With len(buf) hops, `PointerLoop` is reported exactly when the chain of pointers from the start never ends, the case in which the source recurses without bound |
| Names.FuelSuffices | dns.cpp:84-87 | Any number of hops from len(buf) on gives the same result as len(buf) hops, for every buffer and start |
| Names.Walk | dns.cpp:76-87 | The label/pointer loop keeps its cursor inside the buffer and fails only on malformed input |
| Names.RootName | dns.cpp:74-88 | A leading zero byte yields "" and the cursor one past it |
| Names.PointerJump | dns.cpp:84-88 | At a length byte with a top bit set, the name is the one decoded at the pointer's offset, and the cursor is exactly two past the pointer, however long the target is |
| Names.OneLabel | dns.cpp:76-83 | One label is its characters, then "." exactly when the next length byte is non-zero, then the rest of the name |
| Names.LabelPrefix | dns.cpp:76-83 | A run of accepted labels decodes to the labels joined by ".", then "." when the following byte is non-zero, then whatever is read from there |
| Names.NameRoundTrip | dns.cpp:70-88 | Labels followed by a zero byte decode to the labels joined by "." with the cursor one past the zero |
| Names.NameReadBack | dns.cpp:70-88 | The same round trip for the message parser's entry point: the cursor lands two bytes past the dotted text |
| Names.LabelsThenPointer | dns.cpp:76-88 | Labels ending in a pointer decode to the labels, ".", and the pointed-to name, with the cursor two past the pointer; a failing target fails the whole name |
| Names.FuelMonotone | dns.cpp:84-87 | More pointer hops never change a result that did not run out of hops |
| Names.LabelBytesLength | dns.cpp:379-398 | Written labels take exactly one byte more than their dotted text |
| Records.ParseQuestionSection | dns.cpp:91-96 | A question is the name at the cursor, then TYPE and CLASS; it succeeds exactly when four bytes follow the name, and the cursor is name-end + 4; name failures pass through unchanged |
| Records.ParseResourceRecord | dns.cpp:98-110 | A record is the name, then TYPE, CLASS, TTL and RDLENGTH; it succeeds exactly when ten bytes follow the name; the RDATA offset is name-end + 10, truncated to 16 bits as in `data_pos`; the cursor is that offset plus RDLENGTH |
| Records.IPBin2Dec | dns.cpp:15-24 | The text is empty exactly when fewer than four octets are given; otherwise it is 7 to 15 characters, so it always fits the 32-byte buffer `snprintf` writes into |
| Records.DottedJoin | dns.cpp:15-24 | IPBin2Dec on four or more octets is the decimal renderings of the first four joined by "." |
| Records.DottedQuadRoundTrip | dns.cpp:15-24 | Reading the dotted text of IPBin2Dec back gives the four octets as unsigned values 0..255, in order |
| Records.ParseDnsRecordDataField | dns.cpp:112-124 | Type 1 fails exactly when the RDATA passes the buffer; otherwise it gives "" when RDLENGTH < 4, and else the decimal renderings of the first four RDATA bytes joined by "." (which read back as those bytes); types 2 and 5 give the name at the RDATA offset; type 28 gives "IPV6 ADDR"; any other type gives "OTHERS" and never fails |
| Records.QuestionLayout | dns.cpp:91-96 | Whatever name sits at the cursor, the TYPE and CLASS written after it are read back exactly, with the cursor just past them |
| Records.RecordLayout | dns.cpp:98-110 | Whatever name sits at the cursor, TYPE, CLASS, TTL and RDLENGTH written after it are read back; the RDATA offset and the cursor follow from them |
| Response.Run | dns.cpp:210-217 | A section loop yields exactly `count` items, and its failure is the failure of one of its item reads |
| Response.RunConcat | dns.cpp:236-313 | Reading m + n items reads m items, then n more from where the first m stopped |
| Response.RunJoin | dns.cpp:236-313 | Conversely, two runs read back to back are one run of m + n items |
| Response.RunThree | dns.cpp:236-313 | The answer, authority and additional loops read back to back are one run |
| Response.RunThreaded | dns.cpp:210-217 | The i-th item of a section is the one read where the first i items stopped: one cursor threads through the loop |
| Response.ParseRecord | dns.cpp:236-240 | A loop body reads a record, then interprets its RDATA; it succeeds exactly when both steps do; the cursor is the record's, and only the data field differs from the raw record |
| Response.ParseQuestions | dns.cpp:210-217 | The question loop yields exactly QDCOUNT entries, and fails only on malformed bytes |
| Response.ParseRecords | dns.cpp:236-250 | A record loop yields exactly the counted number of records, and fails only on malformed bytes |
| Response.ParseHeader | dns.cpp:137-175 | A non-zero RCODE (the low nibble of byte 3) fails exactly when four bytes are present, and nothing more is read; otherwise the header parses exactly when 12 bytes are present; its six fields are the network-order values of bytes 0-1 up to 10-11, read in the order id, flags, QD, AN, NS, AR, and the cursor is 12 |
| Response.Sections | dns.cpp:210-313 | The sections hold exactly QDCOUNT, ANCOUNT, NSCOUNT and ARCOUNT items, and any failure comes from one of the item reads |
| Response.ParseSections | dns.cpp:210-313 | The four sections of a message have the counted sizes, and fail only on malformed bytes |
| Response.PacketSections | dns.cpp:126-313 | Past a header that parses, the whole message is `Sections` of that header started at offset 12: the QDCOUNT questions first, then (by SectionsOneRun) the three record sections as one run from where the questions stop |
| Response.SectionsOneRun | dns.cpp:236-313 | The three record sections are one run of AN + NS + AR records, started right after the questions |
| Response.ParseDnsResponsePacket | dns.cpp:126-322 | The server-error result occurs exactly when RCODE is non-zero, and carries that RCODE; an accepted message has an RCODE of 0, header fields equal to its first 12 bytes, and section sizes equal to the counts |
| Response.Rcode | dns.cpp:147 | RCODE is the low four bits of the flags (`opcode_info & 0x0f`): below 16, and the flags minus it are a multiple of 16 |
| Response.RcodeGate | dns.cpp:146-150 | Whatever follows the first four bytes, a non-zero RCODE is reported |
| Query.QueryHeader | dns.cpp:347-372 | The 12 header bytes are 09 1D 01 00 00 01 00 00 00 00 00 00: id 0x091D, RD set, one question, no records |
| Query.QueryName | dns.cpp:375-398 | The host is rejected, as InvalidHostFormat, exactly when some run closed by "." is not 1 to 63 characters; an accepted name ends in a zero byte |
| Query.QueryPacket | dns.cpp:341-411 | The query is rejected, as InvalidHostFormat, exactly when some run closed by "." is not 1 to 63 characters; an accepted query is len(host) + 18 bytes: the 12 header bytes, the name in bytes 12 to len(host) + 13, then 00 01 00 01 |
| Query.ScanChar | dns.cpp:380-391 | One pass of the label loop either rejects a host the reference rejects, or keeps the loop state in step with the reference one character further |
| Query.WriteLabels | dns.cpp:347-392 | The header writes and label loop fail exactly when the reference rejects the host; otherwise they leave the labels written with one slot pending and `last` not a "." |
| Query.BuildDnsQueryPacket | dns.cpp:341-411 | Returns -1 exactly when the reference query is rejected; otherwise the bytes written are the reference query and the result is pos + 12 + len(host) + 2 + 4, just past them |
| Query.PendingEnd | dns.cpp:393-398 | After the loop, patching the open run's length (truncated to a byte) and writing a zero completes the reference name |
| Query.QueryNameLength | dns.cpp:375-398 | An accepted name is two bytes longer than the host |
| Query.EmptyRunRejected | dns.cpp:385-389 | A leading "." or a ".." anywhere makes the builder reject the host |
| Query.LongRunRejected | dns.cpp:385-389 | A "." closing a run of more than 63 characters makes the builder reject the host |
| Query.BadClosedRun | dns.cpp:385-389 | Any run closed by "." that is not 1 to 63 characters makes the builder reject the host |
| Query.ValidHostName | dns.cpp:379-398 | For a host whose runs are all labels, the name is exactly each label's length byte and characters, then a zero |
| Query.QueryNameRoundTrip | dns.cpp:375-398 | For such a host, ParseHost at offset 12 of the built query returns the host exactly, with cursor 12 + len(host) + 2 |
| RoundTrip.QueryHeaderRead | dns.cpp:347-372 | The builder's header bytes parse as id 0x091D, RD set, one question and no records |
| RoundTrip.OneQuestionMessage | dns.cpp:210-217 | The builder's header, a name at offset 12, then TYPE A and CLASS IN, parse as a one-question message |
| RoundTrip.QueryMessageRoundTrip | dns.cpp:341-411 | The query built for a valid host parses as a message with one question for that host, TYPE A and CLASS IN, under the builder's header |
| Findings.IntendedQueryName | dns.cpp:393-394 | The corrected encoder rejects a host exactly when one of its labels is not 1 to 63 characters; the last label counts, a trailing "." adds no label, and the empty host is one empty label, so it is rejected |
| Findings.IntendedPacket | dns.cpp:341-411 | The corrected query is rejected exactly when the corrected name is; an accepted one is len(TrimDot(host)) + 18 bytes: the 12 header bytes, the name, then 00 01 00 01 |
| Findings.IntendedLabelsJoin | dns.cpp:393-394 | The corrected labels spell the host without its trailing "." |
| Findings.IntendedNameLength | dns.cpp:393-398 | A corrected name is two bytes longer than the host without its trailing "." |
| Findings.IntendedNameRoundTrip | dns.cpp:393-398 | Every host the corrected encoder accepts is read back at offset 12 without its trailing ".", with the cursor 12 + len(TrimDot(host)) + 2, right after the name |
| Findings.IntendedMessageRoundTrip | dns.cpp:393-411 | The corrected query parses as one question for the host without its trailing "." |
| Findings.IntendedAgrees | dns.cpp:379-398 | On hosts whose runs are all labels, the corrected encoder and the source write the same name |
| Findings.IntendedIsStricter | dns.cpp:385-389 | The corrected encoder rejects every host the source rejects |
| Findings.TrailingDotAsWritten | dns.cpp:393-398 | As written, "h." is encoded as the name of "h" plus an extra zero byte, so its question parses back as host h with TYPE 0 and CLASS 256 |
| Findings.TrailingDotIntended | dns.cpp:393-394 | Corrected, "h." is encoded exactly as "h" is |
| Findings.EmptyHostAsWritten | dns.cpp:393-398 | As written, the empty host is encoded as 00 00, so its question parses back as the root name with TYPE 0 and CLASS 256; the corrected encoder rejects it. The command line of main.cpp refuses an empty host before building, so only other callers reach this |
| Findings.PointerOutside | dns.cpp:84-86 | A pointer whose offset lies beyond the message makes the name unreadable |
| Findings.OneRunName | dns.cpp:393-398 | A host without "." is written as its length byte (truncated to 8 bits), its characters, then a zero, without any length check |
| Findings.LongFinalLabelAsWritten | dns.cpp:396-397 | As written, a dot-free host of 64 to 191 characters is accepted, but its length byte has a top bit set, so the parser reads it as a pointer beyond the message and fails |
| Findings.LongFinalLabelIntended | dns.cpp:385-389 | Corrected, a final label over 63 characters is rejected like any other |
| Findings.QueryIdAsWritten | dns.cpp:139-141 | The id computed through signed `char`, with C's promotions and 16-bit truncation, is below 2^16 |
| Findings.QueryIdSignExtension | dns.cpp:139-141 | Bytes 12 80 give id 0xFF80 as written, where the big-endian reader gives 0x1280 |
| Findings.QueryIdIntended | dns.cpp:139-141 | The corrected id of every accepted message is the big-endian value of its first two bytes |

## Left out

- Terminal output is left out because it is presentation only: PrintBuffer, printSectionTag, the tables, `fmt::print` and the `ioctl` width probe (dns.cpp:26-52, 131-134, 152-320).
- The transport in async_udp_client.h and udp_client.h, and the command line in main.cpp, are left out. They are network I/O and glue around foreign libraries.
- The `buf == nullptr` and `host == nullptr` early returns are left out: a Dafny sequence always exists.
- The `end` arguments of the decoders are left out, since the source ignores them. A read past the received bytes is `Err(Truncated)` in the model. The source instead reads on into the rest of its receive array, which starts zeroed.
- Names.ParseHost: bounded by `fuel` pointer hops. `ParseName` gives it |buf| hops, which is proved to be as good as any more. It fails with `PointerLoop` exactly on a chain of pointers that never ends, where the source recurses without bound and overflows its stack.
- Response.ParseHeader: reads the id with the big-endian reader, which is the evident intent. The sign-extending read as written is Findings.QueryIdAsWritten.
- Findings.QueryIdAsWritten: its contract states only the 16-bit bound. The discrepancy with the intended id is shown on one concrete input (QueryIdSignExtension), not characterised for all inputs.
- Response.ParseDnsResponsePacket: returns the decoded message instead of printing it. The source's integer results are modelled as follows: -1 (non-zero RCODE) is `ServerError`, and 0 is `Ok`.
- Query.BuildDnsQueryPacket: requires a buffer of at least |host| + 18 bytes after `pos`. The `pos < end` guard, which silently truncates the name in a smaller buffer, is therefore never taken; that truncation is not modelled.
- Query.WriteLabels: the same capacity requirement applies. The 12 header writes are unchecked in the source and are not modelled for a short buffer either.
- Records.ParseDnsRecordDataField: type A copies RDLENGTH bytes at the RDATA offset. When they pass the received bytes, the source copies whatever follows in its receive array, while the model fails with `Truncated`.
- The AAAA record's address is never decoded, in the source or the model: type 28 yields the fixed text "IPV6 ADDR".

## Findings

| source | as written | input that shows it | evidently intended | confidence | as-written member | corrected member |
|---|---|---|---|---|---|---|
| dns.cpp:393-398 | `last` is only ever assigned characters other than '.', so the trailing-dot branch never runs; a host ending in '.' gets an empty final slot and an extra zero byte | host "a.": the name is 01 61 00 00, and the question is read back as host "a", TYPE 0, CLASS 256; the empty host likewise gets 00 00 | a trailing '.' ends the name: 01 61 00, TYPE A, CLASS IN; the empty host, which has one empty label, is rejected | high; not executed | Query.QueryName, Findings.TrailingDotAsWritten, Findings.EmptyHostAsWritten | Findings.IntendedQueryName, Findings.TrailingDotIntended, Findings.IntendedNameRoundTrip |
| dns.cpp:396-397 | the final label, the one not closed by '.', is written without the 1..63 check that closed labels get | a dot-free host of 64 characters: length byte 0x40 has a top bit set, so the parser takes it for a pointer beyond the message | the final label is checked like the others, and the host is rejected | high; not executed | Findings.OneRunName, Findings.LongFinalLabelAsWritten | Findings.IntendedQueryName, Findings.LongFinalLabelIntended |
| dns.cpp:139-141 | the id is read through plain (signed) `char`, so a low byte of 0x80 or more is sign-extended over the high byte | bytes 12 80: id 0xFF80 instead of 0x1280 | the big-endian value of the first two bytes | high where `char` is signed; not executed | Findings.QueryIdAsWritten, Findings.QueryIdSignExtension | Response.ParseHeader, Findings.QueryIdIntended |
