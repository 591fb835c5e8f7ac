/** The encoder and the decoder together: a query the builder writes is a
    message the response parser reads back, header, question and all. */
module RoundTrip {
  import opened Wire
  import opened Text
  import opened Names
  import opened Records
  import opened Response
  import opened Query

  /** The header the builder writes, as the parser reads it: id 0x091D,
      RD set, one question, no records. */
  const QueryHeaderFields := Header(QueryId, 0x0100, 1, 0, 0, 0)

  /** Any buffer starting with the builder's header bytes decodes to its
      fields. */
  lemma QueryHeaderRead(buf: seq<Byte>)
    requires |buf| >= 12 && buf[..12] == QueryHeader()
    ensures ParseHeader(buf) == Ok(Decoded(QueryHeaderFields, HeaderSize))
  {
    assert buf[..12] == [0x09, 0x1D, 0x01, 0x00, 0x00, 0x01, 0x00, 0x00, 0x00, 0x00, 0x00, 0x00];
    assert buf[0] == 0x09 && buf[1] == 0x1D && buf[2] == 0x01 && buf[3] == 0x00;
    assert buf[4] == 0x00 && buf[5] == 0x01 && buf[6] == 0x00 && buf[7] == 0x00;
    assert buf[8] == 0x00 && buf[9] == 0x00 && buf[10] == 0x00 && buf[11] == 0x00;
  }

  /** A name at offset 12 followed by TYPE A and CLASS IN is read back as a
      one-question message with no records. */
  lemma OneQuestionMessage(buf: seq<Byte>, host: string, e: nat)
    requires |buf| >= 12 && buf[..12] == QueryHeader()
    requires ParseName(buf, 12) == Ok(Decoded(host, e))
    requires e + 4 <= |buf| && buf[e..e + 4] == QuestionFields(QueryType, QueryClass)
    ensures ParseDnsResponsePacket(buf) ==
              Ok(Message(QueryHeaderFields, [DnsQuestionSection(host, QueryType, QueryClass)], [], [], []))
  {
    QueryHeaderRead(buf);
    QuestionLayout(buf, 12, host, e, QueryType, QueryClass);
    var question := DnsQuestionSection(host, QueryType, QueryClass);
    assert QuestionReader(buf)(12) == Ok(Decoded(question, e + 4));
    assert Run(QuestionReader(buf), e + 4, 0) == Ok(Decoded([], e + 4));
    assert [question] + [] == [question];
    assert Run(QuestionReader(buf), 12, 1) == Ok(Decoded([question], e + 4));
    PacketSections(buf);
  }

  /** Round trip (the whole message): the query built for a valid host is
      read back by the response parser as one question for that host, TYPE
      A, CLASS IN, under the builder's header. */
  lemma QueryMessageRoundTrip(host: string)
    requires IsCString(host) && ValidHost(host)
    ensures QueryPacket(host).Ok?
    ensures ParseDnsResponsePacket(QueryPacket(host).value) ==
              Ok(Message(QueryHeaderFields, [DnsQuestionSection(host, QueryType, QueryClass)], [], [], []))
  {
    QueryNameRoundTrip(host);
    var bs := QueryPacket(host).value;
    var e := 12 + |host| + 2;
    assert bs[e..e + 4] == QuestionFields(QueryType, QueryClass);
    OneQuestionMessage(bs, host, e);
  }
}
