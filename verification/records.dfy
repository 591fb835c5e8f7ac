/** The field decoders of dns.cpp: the question entry (RFC 1035 section
    4.1.2), the resource record (section 4.1.3) and the interpretation of its
    RDATA (section 3.4.1 for A; a name for NS and CNAME). The entities are the
    two structs of dns.h. */
module Records {
  import opened Wire
  import opened Text
  import opened Names

  /** DnsQuestionSection of dns.h:8-12. */
  datatype DnsQuestionSection = DnsQuestionSection(host: string, queryType: nat, queryClass: nat)

  /** DnsResource of dns.h:14-22. `dataPos` is an `unsigned short` there, so
      it holds the RDATA offset modulo 0x10000; `data` is the interpreted
      RDATA, empty until ParseDnsRecordDataField fills it in. */
  datatype DnsResource = DnsResource(
    host: string,
    domainType: nat,
    domainClass: nat,
    ttl: nat,
    dataLen: nat,
    dataPos: nat,
    data: string)

  const TypeA := 1
  const TypeNS := 2
  const TypeCNAME := 5
  const TypeAAAA := 28

  /** The bytes of the fixed part of a question: TYPE then CLASS. */
  function QuestionFields(queryType: nat, queryClass: nat): (bs: seq<Byte>)
    requires queryType < 0x1_0000 && queryClass < 0x1_0000
    ensures |bs| == 4
  {
    ShortBytes(queryType) + ShortBytes(queryClass)
  }

  /** The bytes of the fixed part of a resource record: TYPE, CLASS, TTL
      and RDLENGTH. */
  function RecordFields(domainType: nat, domainClass: nat, ttl: nat, dataLen: nat): (bs: seq<Byte>)
    requires domainType < 0x1_0000 && domainClass < 0x1_0000
    requires ttl < 0x1_0000_0000 && dataLen < 0x1_0000
    ensures |bs| == 10
  {
    ShortBytes(domainType) + ShortBytes(domainClass) + IntBytes(ttl) + ShortBytes(dataLen)
  }

  /** ParseQuestionSection (dns.cpp:91-96): a name, then TYPE and CLASS. */
  function ParseQuestionSection(buf: seq<Byte>, pos: nat): (r: Result<Decoded<DnsQuestionSection>>)
    ensures ParseName(buf, pos).Err? ==> r == Err(ParseName(buf, pos).failure)
    ensures ParseName(buf, pos).Ok? ==>
              var e := ParseName(buf, pos).value.next;
              && (r.Ok? <==> e + 4 <= |buf|)
              && (r.Ok? ==> r.value.next == e + 4 && r.value.value.host == ParseName(buf, pos).value.value)
    ensures r.Ok? ==> pos < r.value.next <= |buf|
    ensures r.Err? ==> r.failure.Malformed()
  {
    var name :- ParseName(buf, pos);
    var queryType :- ParseUnsignedShort(buf, name.next);
    var queryClass :- ParseUnsignedShort(buf, queryType.next);
    Ok(Decoded(DnsQuestionSection(name.value, queryType.value, queryClass.value), queryClass.next))
  }

  /** ParseResourceRecord (dns.cpp:98-110): a name, TYPE, CLASS, TTL and
      RDLENGTH; the RDATA is not read, only located, and the cursor skips it
      without checking that it lies inside the buffer. */
  function ParseResourceRecord(buf: seq<Byte>, pos: nat): (r: Result<Decoded<DnsResource>>)
    ensures ParseName(buf, pos).Err? ==> r == Err(ParseName(buf, pos).failure)
    ensures ParseName(buf, pos).Ok? ==>
              var e := ParseName(buf, pos).value.next;
              && (r.Ok? <==> e + 10 <= |buf|)
              && (r.Ok? ==> var res := r.value.value;
                    && res.host == ParseName(buf, pos).value.value
                    && res.dataPos == (e + 10) % 0x1_0000
                    && r.value.next == e + 10 + res.dataLen
                    && res.data == "")
    ensures r.Ok? ==> pos < r.value.next
    ensures r.Err? ==> r.failure.Malformed()
  {
    var name :- ParseName(buf, pos);
    var domainType :- ParseUnsignedShort(buf, name.next);
    var domainClass :- ParseUnsignedShort(buf, domainType.next);
    var ttl :- ParseUnsignedInt(buf, domainClass.next);
    var dataLen :- ParseUnsignedShort(buf, ttl.next);
    var res := DnsResource(name.value, domainType.value, domainClass.value, ttl.value,
                           dataLen.value, dataLen.next % 0x1_0000, "");
    Ok(Decoded(res, dataLen.next + dataLen.value))
  }

  /** IPBin2Dec (dns.cpp:15-24): the first four octets in dotted decimal, or
      "" when fewer than four are given. The text never needs more than 15
      characters, so the 32-byte buffer of the source never truncates it. */
  function IPBin2Dec(data: seq<Byte>): (s: string)
    ensures s == "" <==> |data| < 4
    ensures |data| >= 4 ==> 7 <= |s| <= 15
  {
    if |data| < 4 then ""
    else
      OctetWidth(data[0]);
      OctetWidth(data[1]);
      OctetWidth(data[2]);
      OctetWidth(data[3]);
      Decimal(data[0]) + "." + Decimal(data[1]) + "." + Decimal(data[2]) + "." + Decimal(data[3])
  }

  /** An octet takes one to three digits. */
  lemma OctetWidth(b: Byte)
    ensures 1 <= |Decimal(b)| <= 3
  {
    if b >= 10 {
      assert Decimal(b) == Decimal(b / 10) + [DigitChar(b % 10)];
      if b / 10 >= 10 {
        assert Decimal(b / 10) == Decimal(b / 100) + [DigitChar(b / 10 % 10)];
      }
    }
  }

  /** The numbers of a dotted-decimal string, one per "."-separated run. */
  function Octets(s: string): (ns: seq<nat>)
    ensures |ns| == |Split(s, '.')|
    ensures forall i :: 0 <= i < |ns| ==> ns[i] == DecimalValue(Split(s, '.')[i])
  {
    var parts := Split(s, '.');
    seq(|parts|, i requires 0 <= i < |parts| => DecimalValue(parts[i]))
  }

  /** The four renderings of an address, in order. */
  function OctetTexts(data: seq<Byte>): (parts: seq<string>)
    requires |data| >= 4
    ensures |parts| == 4
    ensures forall i :: 0 <= i < 4 ==> parts[i] == Decimal(data[i])
  {
    [Decimal(data[0]), Decimal(data[1]), Decimal(data[2]), Decimal(data[3])]
  }

  /** The dotted-decimal text is the four renderings joined by ".". */
  lemma DottedJoin(data: seq<Byte>)
    requires |data| >= 4
    ensures IPBin2Dec(data) == Join(OctetTexts(data), '.')
  {
    var parts := OctetTexts(data);
    var p1 := [parts[0]];
    var p2 := p1 + [parts[1]];
    var p3 := p2 + [parts[2]];
    JoinSnoc(p1, parts[1], '.');
    JoinSnoc(p2, parts[2], '.');
    JoinSnoc(p3, parts[3], '.');
    assert p3 + [parts[3]] == parts;
  }

  lemma DecimalHasNoDot(n: nat)
    ensures '.' !in Decimal(n)
  {
    var d := Decimal(n);
    assert forall k :: 0 <= k < |d| ==> '0' <= d[k] <= '9';
  }

  /** The numbers of "."-joined digit runs are the runs' values. */
  lemma OctetsOfJoin(parts: seq<string>)
    requires |parts| >= 1
    requires forall i :: 0 <= i < |parts| ==> '.' !in parts[i]
    ensures Octets(Join(parts, '.')) == seq(|parts|, i requires 0 <= i < |parts| => DecimalValue(parts[i]))
  {
    SplitJoin(parts, '.');
  }

  /** Reading the dotted-decimal text back gives the four octets it was made
      from, in order. */
  lemma DottedQuadRoundTrip(data: seq<Byte>)
    requires |data| >= 4
    ensures Octets(IPBin2Dec(data)) == [data[0] as nat, data[1], data[2], data[3]]
  {
    var parts := OctetTexts(data);
    forall i | 0 <= i < 4 ensures '.' !in parts[i] {
      DecimalHasNoDot(data[i]);
    }
    OctetsOfJoin(parts);
    DottedJoin(data);
    var octets := Octets(IPBin2Dec(data));
    assert |octets| == 4;
    forall i | 0 <= i < 4 ensures octets[i] == data[i] {
      DecimalRoundTrip(data[i]);
    }
  }

  /** ParseDnsRecordDataField (dns.cpp:112-124): the text of a record's
      RDATA. A copies the RDLENGTH bytes at the RDATA offset and renders
      them with IPBin2Dec; NS and CNAME read a name there, pointers resolved
      against the whole message; AAAA and every other type get a fixed
      marker. Unknown types never fail. */
  function ParseDnsRecordDataField(buf: seq<Byte>, res: DnsResource): (r: Result<string>)
    ensures res.domainType == TypeA ==>
              (r.Ok? <==> res.dataPos + res.dataLen <= |buf|)
              && (r.Ok? && res.dataLen < 4 ==> r.value == "")
              && (r.Ok? && res.dataLen >= 4 ==>
                    r.value == Join(OctetTexts(buf[res.dataPos..res.dataPos + res.dataLen]), '.')
                    && Octets(r.value) == [buf[res.dataPos] as nat, buf[res.dataPos + 1], buf[res.dataPos + 2], buf[res.dataPos + 3]])
    ensures res.domainType == TypeNS || res.domainType == TypeCNAME ==>
              (r.Ok? <==> ParseName(buf, res.dataPos).Ok?)
              && (r.Ok? ==> r.value == ParseName(buf, res.dataPos).value.value)
    ensures res.domainType == TypeAAAA ==> r == Ok("IPV6 ADDR")
    ensures res.domainType !in {TypeA, TypeNS, TypeCNAME, TypeAAAA} ==> r == Ok("OTHERS")
    ensures r.Err? ==> r.failure.Malformed()
  {
    if res.domainType == TypeA then
      if res.dataPos + res.dataLen > |buf| then Err(Truncated)
      else
        var data := buf[res.dataPos..res.dataPos + res.dataLen];
        if |data| >= 4 then DottedQuadRoundTrip(data); DottedJoin(data); Ok(IPBin2Dec(data))
        else Ok(IPBin2Dec(data))
    else if res.domainType == TypeNS || res.domainType == TypeCNAME then
      var name :- ParseName(buf, res.dataPos);
      Ok(name.value)
    else if res.domainType == TypeAAAA then Ok("IPV6 ADDR")
    else Ok("OTHERS")
  }

  /** Questions are laid out as name, TYPE, CLASS: whatever name sits at
      `pos`, the two fields after it are read back exactly. */
  lemma QuestionLayout(buf: seq<Byte>, pos: nat, host: string, e: nat, queryType: nat, queryClass: nat)
    requires queryType < 0x1_0000 && queryClass < 0x1_0000
    requires ParseName(buf, pos) == Ok(Decoded(host, e))
    requires e + 4 <= |buf| && buf[e..e + 4] == QuestionFields(queryType, queryClass)
    ensures ParseQuestionSection(buf, pos) == Ok(Decoded(DnsQuestionSection(host, queryType, queryClass), e + 4))
  {
    assert buf[e..e + 2] == buf[e..e + 4][..2];
    assert buf[e + 2..e + 4] == buf[e..e + 4][2..];
    ShortRoundTrip(buf, e, queryType);
    ShortRoundTrip(buf, e + 2, queryClass);
  }

  /** Resource records are laid out as name, TYPE, CLASS, TTL, RDLENGTH:
      whatever name sits at `pos`, the fields after it are read back exactly,
      the RDATA offset is the byte after them and the cursor skips RDLENGTH
      bytes. */
  lemma RecordLayout(buf: seq<Byte>, pos: nat, host: string, e: nat,
                     domainType: nat, domainClass: nat, ttl: nat, dataLen: nat)
    requires domainType < 0x1_0000 && domainClass < 0x1_0000
    requires ttl < 0x1_0000_0000 && dataLen < 0x1_0000
    requires ParseName(buf, pos) == Ok(Decoded(host, e))
    requires e + 10 <= |buf| && buf[e..e + 10] == RecordFields(domainType, domainClass, ttl, dataLen)
    ensures ParseResourceRecord(buf, pos) ==
              Ok(Decoded(DnsResource(host, domainType, domainClass, ttl, dataLen, (e + 10) % 0x1_0000, ""),
                         e + 10 + dataLen))
  {
    var w := buf[e..e + 10];
    assert w[..2] == ShortBytes(domainType) && w[2..4] == ShortBytes(domainClass);
    assert w[4..8] == IntBytes(ttl) && w[8..] == ShortBytes(dataLen);
    SliceOfSlice(buf, e, e + 10, 0, 2);
    SliceOfSlice(buf, e, e + 10, 2, 4);
    SliceOfSlice(buf, e, e + 10, 4, 8);
    SliceOfSlice(buf, e, e + 10, 8, 10);
    ShortRoundTrip(buf, e, domainType);
    ShortRoundTrip(buf, e + 2, domainClass);
    IntRoundTrip(buf, e + 4, ttl);
    ShortRoundTrip(buf, e + 8, dataLen);
  }
}
