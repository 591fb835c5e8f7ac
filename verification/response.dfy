/** The decoding half of ParseDnsResponsePacket (dns.cpp:126-322) without
    its table printing: the header (RFC 1035 section 4.1.1), the RCODE gate,
    and the four sections decoded in order with one threaded cursor. */
module Response {
  import opened Wire
  import opened Records

  /** The six header fields, in wire order. */
  datatype Header = Header(id: nat, flags: nat, qdCount: nat, anCount: nat, nsCount: nat, arCount: nat)
  {
    /** Every field fits in the 16 bits it occupies on the wire. */
    predicate Fits()
    {
      id < 0x1_0000 && flags < 0x1_0000 && qdCount < 0x1_0000
      && anCount < 0x1_0000 && nsCount < 0x1_0000 && arCount < 0x1_0000
    }
  }

  /** A decoded response: header, questions, and the answer, authority and
      additional records with their RDATA interpreted. */
  datatype Message = Message(
    header: Header,
    questions: seq<DnsQuestionSection>,
    answers: seq<DnsResource>,
    authorities: seq<DnsResource>,
    additionals: seq<DnsResource>)

  /** Length of the fixed header. */
  const HeaderSize := 12

  /** RCODE, the low four bits of the flags (`opcode_info & 0x0f`). */
  function Rcode(flags: nat): (r: nat)
    ensures r < 0x10 && (flags - r) % 0x10 == 0
  {
    flags % 0x10
  }

  /** A decoder of one item at a cursor. */
  type Reader<T> = nat -> Result<Decoded<T>>

  /** `count` items read back to back, each where the previous one stopped:
      the shape of every section loop of ParseDnsResponsePacket. The first
      failure ends the run and is the run's failure. */
  function Run<T>(read: Reader<T>, pos: nat, count: nat): (r: Result<Decoded<seq<T>>>)
    ensures r.Ok? ==> |r.value.value| == count
    ensures r.Err? ==> exists p :: read(p).Err? && read(p).failure == r.failure
    decreases count
  {
    if count == 0 then Ok(Decoded([], pos))
    else
      var item :- read(pos);
      var rest :- Run(read, item.next, count - 1);
      Ok(Decoded([item.value] + rest.value, rest.next))
  }

  /** Reading m + n items is reading m, then n from where those stopped. */
  lemma {:induction false} RunConcat<T>(read: Reader<T>, pos: nat, m: nat, n: nat)
    requires Run(read, pos, m + n).Ok?
    ensures var first := Run(read, pos, m);
            && first.Ok?
            && var second := Run(read, first.value.next, n);
            && second.Ok?
            && Run(read, pos, m + n).value == Decoded(first.value.value + second.value.value, second.value.next)
    decreases m
  {
    if m > 0 {
      var item := read(pos).value;
      assert Run(read, item.next, m - 1 + n).Ok?;
      RunConcat(read, item.next, m - 1, n);
      var first := Run(read, item.next, m - 1).value;
      var second := Run(read, first.next, n).value;
      assert [item.value] + (first.value + second.value) == ([item.value] + first.value) + second.value;
    } else {
      assert [] + Run(read, pos, n).value.value == Run(read, pos, n).value.value;
    }
  }

  /** The converse of RunConcat: two runs read back to back are one run. */
  lemma {:induction false} RunJoin<T>(read: Reader<T>, pos: nat, m: nat, n: nat)
    requires Run(read, pos, m).Ok?
    requires Run(read, Run(read, pos, m).value.next, n).Ok?
    ensures var first := Run(read, pos, m).value;
            var second := Run(read, first.next, n).value;
            Run(read, pos, m + n) == Ok(Decoded(first.value + second.value, second.next))
    decreases m
  {
    if m > 0 {
      var item := read(pos).value;
      var first := Run(read, item.next, m - 1).value;
      RunJoin(read, item.next, m - 1, n);
      var second := Run(read, first.next, n).value;
      assert [item.value] + (first.value + second.value) == ([item.value] + first.value) + second.value;
    } else {
      assert [] + Run(read, pos, n).value.value == Run(read, pos, n).value.value;
    }
  }

  /** Three runs read back to back are one run. */
  lemma RunThree<T>(read: Reader<T>, pos: nat, a: nat, b: nat, c: nat)
    requires Run(read, pos, a).Ok?
    requires Run(read, Run(read, pos, a).value.next, b).Ok?
    requires Run(read, Run(read, Run(read, pos, a).value.next, b).value.next, c).Ok?
    ensures var x := Run(read, pos, a).value;
            var y := Run(read, x.next, b).value;
            var z := Run(read, y.next, c).value;
            Run(read, pos, a + b + c) == Ok(Decoded(x.value + y.value + z.value, z.next))
  {
    var x := Run(read, pos, a).value;
    var y := Run(read, x.next, b).value;
    var z := Run(read, y.next, c).value;
    RunJoin(read, x.next, b, c);
    RunJoin(read, pos, a, b + c);
    assert x.value + (y.value + z.value) == x.value + y.value + z.value;
  }

  /** The i-th item of a run is the item read where the first i stopped:
      one cursor threads through the loop. */
  lemma RunThreaded<T>(read: Reader<T>, pos: nat, count: nat, i: nat)
    requires i < count && Run(read, pos, count).Ok?
    ensures var before := Run(read, pos, i);
            && before.Ok?
            && read(before.value.next).Ok?
            && read(before.value.next).value.value == Run(read, pos, count).value.value[i]
  {
    RunConcat(read, pos, i, count - i);
    var before := Run(read, pos, i).value;
    assert Run(read, before.next, count - i).Ok?;
  }

  /** One question (the body of the loop at dns.cpp:210-217). */
  function QuestionReader(buf: seq<Byte>): Reader<DnsQuestionSection>
  {
    (p: nat) => ParseQuestionSection(buf, p)
  }

  /** One resource record with its RDATA interpreted right after it is read,
      as each record loop does (dns.cpp:238-239, 270-271, 301-302). */
  function ParseRecord(buf: seq<Byte>, pos: nat): (r: Result<Decoded<DnsResource>>)
    ensures r.Ok? ==> pos < r.value.next
    ensures r.Ok? ==> var res := ParseResourceRecord(buf, pos);
              && res.Ok? && r.value.next == res.value.next
              && r.value.value == res.value.value.(data := r.value.value.data)
              && ParseDnsRecordDataField(buf, res.value.value) == Ok(r.value.value.data)
    ensures var res := ParseResourceRecord(buf, pos);
            res.Ok? && ParseDnsRecordDataField(buf, res.value.value).Ok? ==> r.Ok?
    ensures r.Err? ==> r.failure.Malformed()
  {
    var record :- ParseResourceRecord(buf, pos);
    var data :- ParseDnsRecordDataField(buf, record.value);
    Ok(Decoded(record.value.(data := data), record.next))
  }

  /** One record (the body of the loops at dns.cpp:236-250, 268-282 and
      299-313). */
  function RecordReader(buf: seq<Byte>): Reader<DnsResource>
  {
    (p: nat) => ParseRecord(buf, p)
  }

  /** `count` questions from `pos`. */
  function ParseQuestions(buf: seq<Byte>, pos: nat, count: nat): (r: Result<Decoded<seq<DnsQuestionSection>>>)
    ensures r.Ok? ==> |r.value.value| == count
    ensures r.Err? ==> r.failure.Malformed()
  {
    Run(QuestionReader(buf), pos, count)
  }

  /** `count` resource records from `pos`. */
  function ParseRecords(buf: seq<Byte>, pos: nat, count: nat): (r: Result<Decoded<seq<DnsResource>>>)
    ensures r.Ok? ==> |r.value.value| == count
    ensures r.Err? ==> r.failure.Malformed()
  {
    Run(RecordReader(buf), pos, count)
  }

  /** The header as dns.cpp:137-175 reads it. The id is read with the
      big-endian reader; dns.cpp:140-141 reads it through plain `char`, which
      sign-extends (see Findings.QueryIdAsWritten). A non-zero RCODE stops the parse
      before any count is read (dns.cpp:146-150); then the four counts are
      read in the order QD, AN, NS, AR. */
  function ParseHeader(buf: seq<Byte>): (r: Result<Decoded<Header>>)
    ensures (r.Err? && r.failure.ServerError?) <==> (|buf| >= 4 && buf[3] % 0x10 != 0)
    ensures r.Err? && r.failure.ServerError? ==> r.failure.rcode == buf[3] % 0x10
    ensures r.Err? && !r.failure.ServerError? ==> r.failure == Truncated
    ensures r.Ok? <==> |buf| >= HeaderSize && buf[3] % 0x10 == 0
    ensures r.Ok? ==>
              var h := r.value.value;
              && r.value.next == HeaderSize
              && h.Fits()
              && ShortBytes(h.id) == buf[0..2]
              && ShortBytes(h.flags) == buf[2..4]
              && ShortBytes(h.qdCount) == buf[4..6]
              && ShortBytes(h.anCount) == buf[6..8]
              && ShortBytes(h.nsCount) == buf[8..10]
              && ShortBytes(h.arCount) == buf[10..12]
  {
    var id :- ParseUnsignedShort(buf, 0);
    var flags :- ParseUnsignedShort(buf, id.next);
    if Rcode(flags.value) != 0 then Err(ServerError(Rcode(flags.value)))
    else
      var qdCount :- ParseUnsignedShort(buf, flags.next);
      var anCount :- ParseUnsignedShort(buf, qdCount.next);
      var nsCount :- ParseUnsignedShort(buf, anCount.next);
      var arCount :- ParseUnsignedShort(buf, nsCount.next);
      ShortBytesOfRead(buf, 0);
      ShortBytesOfRead(buf, 2);
      ShortBytesOfRead(buf, 4);
      ShortBytesOfRead(buf, 6);
      ShortBytesOfRead(buf, 8);
      ShortBytesOfRead(buf, 10);
      Ok(Decoded(Header(id.value, flags.value, qdCount.value, anCount.value, nsCount.value, arCount.value), arCount.next))
  }

  /** The four sections after the header, for any question and record
      readers: QD questions, then AN, NS and AR records, each section
      continuing where the previous one stopped. */
  function Sections(questions: Reader<DnsQuestionSection>, records: Reader<DnsResource>,
                    header: Header, pos: nat): (r: Result<Message>)
    ensures r.Ok? ==>
              && r.value.header == header
              && |r.value.questions| == header.qdCount
              && |r.value.answers| == header.anCount
              && |r.value.authorities| == header.nsCount
              && |r.value.additionals| == header.arCount
    ensures r.Err? ==>
              || (exists p :: questions(p).Err? && questions(p).failure == r.failure)
              || (exists p :: records(p).Err? && records(p).failure == r.failure)
  {
    var qs :- Run(questions, pos, header.qdCount);
    var an :- Run(records, qs.next, header.anCount);
    var ns :- Run(records, an.next, header.nsCount);
    var ar :- Run(records, ns.next, header.arCount);
    Ok(Message(header, qs.value, an.value, ns.value, ar.value))
  }

  /** The sections as dns.cpp:210-313 reads them from a message. */
  function ParseSections(buf: seq<Byte>, header: Header, pos: nat): (r: Result<Message>)
    ensures r.Ok? ==>
              && r.value.header == header
              && |r.value.questions| == header.qdCount
              && |r.value.answers| == header.anCount
              && |r.value.authorities| == header.nsCount
              && |r.value.additionals| == header.arCount
    ensures r.Err? ==> r.failure.Malformed()
  {
    Sections(QuestionReader(buf), RecordReader(buf), header, pos)
  }

  /** The three record sections are one run of AN + NS + AR records started
      right after the questions. */
  lemma SectionsOneRun(questions: Reader<DnsQuestionSection>, records: Reader<DnsResource>,
                       header: Header, pos: nat)
    requires Sections(questions, records, header, pos).Ok?
    ensures var m := Sections(questions, records, header, pos).value;
            var qs := Run(questions, pos, header.qdCount);
            && qs.Ok? && qs.value.value == m.questions
            && var all := Run(records, qs.value.next, header.anCount + header.nsCount + header.arCount);
            && all.Ok? && all.value.value == m.answers + m.authorities + m.additionals
  {
    var qs := Run(questions, pos, header.qdCount).value;
    RunThree(records, qs.next, header.anCount, header.nsCount, header.arCount);
  }

  /** ParseDnsResponsePacket (dns.cpp:126-322) without its printing: the
      header, the RCODE gate, then the sections. */
  function ParseDnsResponsePacket(buf: seq<Byte>): (r: Result<Message>)
    ensures (r.Err? && r.failure.ServerError?) <==> (|buf| >= 4 && buf[3] % 0x10 != 0)
    ensures r.Err? && r.failure.ServerError? ==> r.failure.rcode == buf[3] % 0x10
    ensures r.Ok? ==>
              var m := r.value;
              && |buf| >= HeaderSize
              && m.header.Fits()
              && ShortBytes(m.header.id) == buf[0..2]
              && ShortBytes(m.header.flags) == buf[2..4]
              && Rcode(m.header.flags) == 0
              && ShortBytes(m.header.qdCount) == buf[4..6]
              && ShortBytes(m.header.anCount) == buf[6..8]
              && ShortBytes(m.header.nsCount) == buf[8..10]
              && ShortBytes(m.header.arCount) == buf[10..12]
              && |m.questions| == m.header.qdCount
              && |m.answers| == m.header.anCount
              && |m.authorities| == m.header.nsCount
              && |m.additionals| == m.header.arCount
  {
    var header :- ParseHeader(buf);
    ParseSections(buf, header.value, header.next)
  }

  /** Past the header, a message is its sections read from offset 12. */
  lemma PacketSections(buf: seq<Byte>)
    requires ParseHeader(buf).Ok?
    ensures ParseDnsResponsePacket(buf) ==
              Sections(QuestionReader(buf), RecordReader(buf), ParseHeader(buf).value.value, HeaderSize)
  {
  }

  /** The RCODE gate looks at the first four bytes only: whatever follows,
      a non-zero RCODE is reported and nothing else is read. */
  lemma RcodeGate(head: seq<Byte>, rest: seq<Byte>)
    requires |head| == 4 && head[3] % 0x10 != 0
    ensures ParseDnsResponsePacket(head + rest) == Err(ServerError(head[3] % 0x10))
  {
    var buf := head + rest;
    assert buf[3] == head[3];
  }
}
