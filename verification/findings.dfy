/** Three places where dns.cpp does not do what it evidently means to, each
    as written next to the corrected behaviour: the trailing-dot branch of
    the builder that can never run, the final label the builder never
    checks, and the query id read through signed `char`. The corrected
    builder, IntendedQueryName, is what the round trips below hold for. */
module Findings {
  import opened Wire
  import opened Text
  import opened Names
  import opened Records
  import opened Response
  import opened Query
  import opened RoundTrip

  /** The host without one trailing '.', as the builder's dead branch at
      dns.cpp:393-394 evidently meant to treat it. */
  function TrimDot(host: string): string
  {
    if |host| > 0 && host[|host| - 1] == '.' then host[..|host| - 1] else host
  }

  /** The labels the corrected builder writes: the runs of the host, less
      the empty run a trailing '.' leaves. The empty host keeps its one
      empty run, so it is rejected like any other empty label. */
  function IntendedLabels(host: string): (labels: seq<string>)
    ensures |labels| >= 1
  {
    var segs := Split(host, '.');
    if |segs| >= 2 && Open(segs) == "" then Closed(segs) else segs
  }

  /** The corrected name encoder: every label, the last one included, must
      hold 1 to 63 characters, and a trailing '.' ends the name instead of
      adding a second zero byte. */
  function IntendedQueryName(host: string): (r: Result<seq<Byte>>)
    ensures r.Err? ==> r.failure == InvalidHostFormat
    ensures r.Ok? <==> AllLabels(IntendedLabels(host))
  {
    var labels := IntendedLabels(host);
    if !AllLabels(labels) then Err(InvalidHostFormat)
    else Ok(LabelBytes(labels) + [0])
  }

  /** The corrected query: the 12 header bytes, the corrected name in the
      next |TrimDot(host)| + 2, then 00 01 00 01 for TYPE A and CLASS IN. */
  function IntendedPacket(host: string): (r: Result<seq<Byte>>)
    ensures r.Err? ==> r.failure == InvalidHostFormat
    ensures r.Ok? <==> AllLabels(IntendedLabels(host))
    ensures r.Ok? ==> |r.value| == |TrimDot(host)| + 18
    ensures r.Ok? ==> r.value[..12] == QueryHeader() && r.value[12..|TrimDot(host)| + 14] == IntendedQueryName(host).value
    ensures r.Ok? ==> r.value[|TrimDot(host)| + 14..] == [0x00, 0x01, 0x00, 0x01]
  {
    var name :- IntendedQueryName(host);
    IntendedNameLength(host);
    var bs := QueryHeader() + name + ShortBytes(QueryType) + ShortBytes(QueryClass);
    PacketLayout(bs, name);
    Ok(bs)
  }

  /** An accepted name is two bytes longer than the host without its
      trailing '.'. */
  lemma IntendedNameLength(host: string)
    requires IntendedQueryName(host).Ok?
    ensures |IntendedQueryName(host).value| == |TrimDot(host)| + 2
  {
    IntendedLabelsJoin(host);
    LabelBytesLength(IntendedLabels(host));
  }

  /** The corrected labels spell the host without its trailing '.'. */
  lemma IntendedLabelsJoin(host: string)
    ensures Join(IntendedLabels(host), '.') == TrimDot(host)
  {
    var segs := Split(host, '.');
    JoinSplit(host, '.');
    if |host| > 0 && host[|host| - 1] == '.' {
      assert Open(segs) == "";
    }
    if |segs| >= 2 && Open(segs) == "" {
      assert segs[..|segs| - 1] == Closed(segs);
      assert host == Join(Closed(segs), '.') + "." + "";
      assert host[..|host| - 1] == Join(Closed(segs), '.');
    }
  }

  /** Round trip for the corrected builder (the name half): every host it
      accepts is read back at offset 12 without its trailing '.', and the
      cursor stops right after the name, two bytes past that text. */
  lemma IntendedNameRoundTrip(host: string)
    requires IntendedPacket(host).Ok?
    ensures ParseName(IntendedPacket(host).value, 12) == Ok(Decoded(TrimDot(host), 12 + |TrimDot(host)| + 2))
  {
    IntendedNameAt(host);
    IntendedHostAt(IntendedPacket(host).value, 12, host);
  }

  /** The corrected labels followed by a zero, wherever they sit in a
      buffer, read back as the host without its trailing '.'. */
  lemma IntendedHostAt(buf: seq<Byte>, start: nat, host: string)
    requires AllLabels(IntendedLabels(host))
    requires start + |LabelBytes(IntendedLabels(host))| < |buf|
    requires buf[start..start + |LabelBytes(IntendedLabels(host))| + 1] == LabelBytes(IntendedLabels(host)) + [0]
    ensures ParseName(buf, start) == Ok(Decoded(TrimDot(host), start + |TrimDot(host)| + 2))
  {
    IntendedLabelsJoin(host);
    NameReadBack(buf, start, IntendedLabels(host), TrimDot(host));
  }

  /** The corrected labels and their zero sit at offset 12 of the corrected
      query. */
  lemma IntendedNameAt(host: string)
    requires IntendedPacket(host).Ok?
    ensures var bs, labels := IntendedPacket(host).value, IntendedLabels(host);
            && AllLabels(labels)
            && 12 + |LabelBytes(labels)| < |bs|
            && bs[12..12 + |LabelBytes(labels)| + 1] == LabelBytes(labels) + [0]
  {
    IntendedNameLength(host);
    assert IntendedQueryName(host).value == LabelBytes(IntendedLabels(host)) + [0];
  }

  /** Round trip for the corrected builder (the whole message): the query is
      read back as one question for the host without its trailing '.',
      TYPE A, CLASS IN. */
  lemma IntendedMessageRoundTrip(host: string)
    requires IntendedPacket(host).Ok?
    ensures ParseDnsResponsePacket(IntendedPacket(host).value) ==
              Ok(Message(QueryHeaderFields, [DnsQuestionSection(TrimDot(host), QueryType, QueryClass)], [], [], []))
  {
    IntendedNameRoundTrip(host);
    var bs := IntendedPacket(host).value;
    var e := 12 + |TrimDot(host)| + 2;
    assert bs[e..e + 4] == QuestionFields(QueryType, QueryClass);
    OneQuestionMessage(bs, TrimDot(host), e);
  }

  /** On valid hosts the source and the corrected builder agree. */
  lemma IntendedAgrees(host: string)
    requires IsCString(host) && ValidHost(host)
    ensures IntendedQueryName(host) == QueryName(host)
  {
    var segs := Split(host, '.');
    assert IsLabel(Open(segs));
    ValidHostName(host);
  }

  /** The corrected builder rejects every host the source rejects. */
  lemma IntendedIsStricter(host: string)
    requires IsCString(host) && QueryName(host).Err?
    ensures IntendedQueryName(host).Err?
  {
    var segs := Split(host, '.');
    var i :| 0 <= i < |Closed(segs)| && !IsLabel(Closed(segs)[i]);
    assert IntendedLabels(host)[i] == Closed(segs)[i];
  }

  /** The runs of `h + "."` are those of `h` and an empty open run. */
  lemma TrailingDotRuns(h: string)
    ensures Split(h + ".", '.') == Split(h, '.') + [""]
    ensures Closed(Split(h + ".", '.')) == Split(h, '.') && Open(Split(h + ".", '.')) == ""
  {
    assert h + "." == h + ['.'] + "";
    SplitAppend(h, '.', "");
    assert Closed(Split(h, '.') + [""]) == Split(h, '.');
  }

  /** With a trailing '.', the source writes the name of the host without
      it and then one more zero byte. */
  lemma TrailingDotName(h: string)
    requires IsCString(h) && ValidHost(h)
    ensures IsCString(h + ".")
    ensures QueryName(h + ".") == Ok(LabelBytes(Split(h, '.')) + [0] + [0])
  {
    assert IsCString(h + ".");
    TrailingDotRuns(h);
    var segs := Split(h + ".", '.');
    var lb := LabelBytes(Split(h, '.'));
    assert AllLabels(Closed(segs));
    assert LabelBytes(Closed(segs)) == lb;
    assert BytesOf(Open(segs)) == [] && |Open(segs)| % 0x100 == 0;
    assert QueryName(h + ".").value == lb + [0] + [] + [0];
    assert lb + [0] + [] + [0] == lb + [0] + [0];
  }

  /** The bytes after a name that ends in two zeros: the second zero and
      TYPE A, CLASS IN are read as TYPE 0, CLASS 256. */
  lemma DoubleZeroLayout(bs: seq<Byte>, lb: seq<Byte>)
    requires |bs| == |lb| + 2 + 16
    requires bs[12..12 + |lb| + 2] == lb + [0] + [0]
    requires bs[12 + |lb| + 2..] == ShortBytes(QueryType) + ShortBytes(QueryClass)
    ensures bs[12..12 + |lb| + 1] == lb + [0]
    ensures bs[12 + |lb| + 1..12 + |lb| + 1 + 4] == QuestionFields(0, 0x100)
  {
    assert bs[12..12 + |lb| + 1] == bs[12..12 + |lb| + 2][..|lb| + 1];
    assert bs[12 + |lb| + 1] == bs[12..12 + |lb| + 2][|lb| + 1];
    assert bs[12 + |lb| + 1..12 + |lb| + 1 + 4] == [bs[12 + |lb| + 1]] + bs[12 + |lb| + 2..][..3];
  }

  /** Finding (as written): a host with a trailing '.' gets a second zero
      byte, so the parser reads the question's TYPE from that zero and the
      TYPE's high byte (0) and its CLASS from the rest of TYPE and the
      CLASS's high byte (0x0100): "a." is asked as TYPE 0, CLASS 256. */
  lemma TrailingDotAsWritten(h: string)
    requires IsCString(h) && ValidHost(h)
    ensures IsCString(h + ".")
    ensures QueryName(h + ".") == Ok(QueryName(h).value + [0])
    ensures ParseQuestionSection(QueryPacket(h + ".").value, 12) ==
              Ok(Decoded(DnsQuestionSection(h, 0, 0x100), 12 + |h| + 2 + 4))
  {
    TrailingDotName(h);
    ValidHostName(h);
    var lb := LabelBytes(Split(h, '.'));
    var bs := QueryPacket(h + ".").value;
    PacketLayout(bs, lb + [0] + [0]);
    DoubleZeroLayout(bs, lb);
    ValidHostAt(bs, 12, h);
    ValidHostLength(h);
    QuestionLayout(bs, 12, h, 12 + |h| + 2, 0, 0x100);
  }

  /** Finding (corrected): a trailing '.' changes nothing. */
  lemma TrailingDotIntended(h: string)
    requires IsCString(h) && ValidHost(h)
    ensures IntendedQueryName(h + ".") == QueryName(h)
  {
    TrailingDotRuns(h);
    IntendedAgrees(h);
  }

  /** Finding (as written): the empty host has one empty run, which the
      builder writes as a zero length byte and then the terminating zero, so
      its question reads back as the root name with TYPE 0, CLASS 256, as
      for a trailing '.'. The corrected builder rejects it. */
  lemma EmptyHostAsWritten()
    ensures QueryName("") == Ok([0, 0])
    ensures ParseQuestionSection(QueryPacket("").value, 12) ==
              Ok(Decoded(DnsQuestionSection("", 0, 0x100), 12 + 1 + 4))
    ensures IntendedQueryName("") == Err(InvalidHostFormat)
  {
    assert Split("", '.') == [""];
    var bs := QueryPacket("").value;
    assert bs[12..14] == [0, 0] && bs[13..] == [0x00, 0x00, 0x01, 0x00, 0x01];
    assert bs[13..17] == QuestionFields(0, 0x100);
    RootName(bs, 12, |bs|);
    QuestionLayout(bs, 12, "", 13, 0, 0x100);
  }

  /** A length byte with a top bit set whose offset lies past the end of
      the message stops the parse. */
  lemma PointerOutside(buf: seq<Byte>, p: nat)
    requires p + 1 < |buf| && IsPointer(buf[p]) && PointerOffset(buf[p], buf[p + 1]) >= |buf|
    ensures ParseName(buf, p) == Err(Truncated)
  {
    PointerJump(buf, p, |buf| - 1);
  }

  /** What the source writes for a host of one run: its length byte
      truncated to eight bits, its characters, a zero. */
  lemma OneRunName(host: string)
    requires IsCString(host) && '.' !in host
    ensures QueryName(host).Ok? && QueryName(host).value == [|host| % 0x100] + BytesOf(host) + [0]
  {
    SplitFree(host, '.');
    assert Closed([host]) == [] && Open([host]) == host;
    assert AllLabels(Closed(Split(host, '.')));
    assert LabelBytes([]) == [];
    var segs := Split(host, '.');
    assert LabelBytes(Closed(segs)) == [];
    assert QueryName(host).Ok?;
    assert QueryName(host).value == LabelBytes(Closed(segs)) + [|Open(segs)| % 0x100] + BytesOf(Open(segs)) + [0];
    assert Open(segs) == host;
  }

  /** Finding (as written): a final label of 64 to 191 characters passes
      unchecked; its length byte has a top bit set, so the parser takes it
      for a compression pointer to an offset of 0x4000 or more and runs off
      the message. */
  lemma LongFinalLabelAsWritten(host: string)
    requires IsCString(host) && '.' !in host && MaxLabel < |host| < 0xC0
    ensures QueryName(host) == Ok([|host|] + BytesOf(host) + [0])
    ensures ParseName(QueryPacket(host).value, 12) == Err(Truncated)
  {
    OneRunName(host);
    var name := [|host|] + BytesOf(host) + [0];
    var bs := QueryPacket(host).value;
    assert bs[12..|host| + 14] == name;
    assert bs[12] == name[0] && bs[13] == name[1];
    assert bs[12] == |host| && bs[13] == host[0] as int;
    assert PointerOffset(bs[12], bs[13]) >= 0x4000;
    PointerOutside(bs, 12);
  }

  /** Finding (corrected): a final label over 63 characters is rejected. */
  lemma LongFinalLabelIntended(host: string)
    requires '.' !in host && MaxLabel < |host|
    ensures IntendedQueryName(host) == Err(InvalidHostFormat)
  {
    SplitFree(host, '.');
    assert IntendedLabels(host) == [host];
  }

  /** Plain `char` is signed on the platforms the client is built for: bytes
      from 0x80 up read as negative numbers. */
  function SignedChar(b: Byte): int
  {
    if b < 0x80 then b else b - 0x100
  }

  /** The id as dns.cpp:139-141 computes it: `query_id = buf[0]` converts a
      signed char to uint16_t; `(query_id << 8) | buf[1]` promotes both to
      32-bit int, the second sign-extended; the result is truncated back to
      16 bits. */
  function QueryIdAsWritten(hi: Byte, lo: Byte): (id: nat)
    ensures id < 0x1_0000
  {
    var first := SignedChar(hi) % 0x1_0000;
    var shifted := (first * 0x100) as bv32;
    var widened := (SignedChar(lo) % 0x1_0000_0000) as bv32;
    (shifted | widened) as int % 0x1_0000
  }

  /** An id whose low byte is 0x80 or more comes out with its high byte
      replaced by 0xFF: bytes 12 80 read as 0xFF80, not 0x1280. */
  lemma QueryIdSignExtension()
    ensures QueryIdAsWritten(0x12, 0x80) == 0xFF80
    ensures ParseUnsignedShort([0x12, 0x80], 0) == Ok(Decoded(0x1280, 2))
  {
    assert SignedChar(0x12) % 0x1_0000 == 0x12;
    assert SignedChar(0x80) % 0x1_0000_0000 == 0xFFFF_FF80;
    assert (0x1200 as bv32) | (0xFFFF_FF80 as bv32) == 0xFFFF_FF80;
  }

  /** Finding (corrected): the id of every message the parser accepts is
      the big-endian value of its first two bytes, whatever their top bits. */
  lemma QueryIdIntended(buf: seq<Byte>)
    requires ParseDnsResponsePacket(buf).Ok?
    ensures ParseDnsResponsePacket(buf).value.header.id == buf[0] as int * 0x100 + buf[1]
  {
    var id := ParseDnsResponsePacket(buf).value.header.id;
    assert ShortBytes(id)[0] == buf[0] && ShortBytes(id)[1] == buf[1];
  }
}
