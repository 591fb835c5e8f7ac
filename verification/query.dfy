/** The encoding half of dns.cpp: BuildDnsQueryPacket (dns.cpp:341-411),
    which writes a recursive A/IN query for one host. The loop of the source
    is modelled as a method and proved equal to a functional reference,
    QueryPacket, built from the host's "."-separated runs. */
module Query {
  import opened Wire
  import opened Text
  import opened Names

  /** The fixed transaction id of every query (dns.cpp:347). */
  const QueryId := 0x091D
  /** TYPE A and CLASS IN, the only question the builder asks
      (dns.cpp:401, 406). */
  const QueryType := 1
  const QueryClass := 1

  /** The 12 header bytes: the id, RD set and everything else clear, one
      question and no records (dns.cpp:347-372). */
  function QueryHeader(): (bs: seq<Byte>)
    ensures bs == [0x09, 0x1D, 0x01, 0x00, 0x00, 0x01, 0x00, 0x00, 0x00, 0x00, 0x00, 0x00]
  {
    ShortBytes(QueryId) + [0x01, 0x00] + ShortBytes(1) + ShortBytes(0) + ShortBytes(0) + ShortBytes(0)
  }

  /** The runs of a host closed by a '.', which the loop validates. */
  function Closed(segs: seq<string>): seq<string>
    requires |segs| >= 1
  {
    segs[..|segs| - 1]
  }

  /** The run after the last '.', written without validation. */
  function Open(segs: seq<string>): string
    requires |segs| >= 1
  {
    segs[|segs| - 1]
  }

  /** The runs of a C-string host are single-byte and so can be written. */
  lemma HostRuns(host: string)
    requires IsCString(host)
    ensures var segs := Split(host, '.');
            && (forall i :: 0 <= i < |segs| ==> IsByteString(segs[i]) && '.' !in segs[i])
            && IsByteString(Open(segs))
  {
    SplitSegments(host, '.');
  }

  /** The name the builder writes for `host` (dns.cpp:375-398): every run
      closed by '.' must hold 1 to 63 characters, else the host is rejected;
      each is written as its length byte and characters. The last run gets
      its length truncated to a byte and is followed by a zero byte, even
      when it is empty: the branch meant for a trailing '.' (dns.cpp:393-394)
      can never be taken. */
  function QueryName(host: string): (r: Result<seq<Byte>>)
    requires IsCString(host)
    ensures r.Err? ==> r.failure == InvalidHostFormat
    ensures r.Ok? <==> AllLabels(Closed(Split(host, '.')))
    ensures r.Ok? ==> |r.value| > 0 && r.value[|r.value| - 1] == 0
  {
    var segs := Split(host, '.');
    HostRuns(host);
    if !AllLabels(Closed(segs)) then Err(InvalidHostFormat)
    else Ok(LabelBytes(Closed(segs)) + [|Open(segs)| % 0x100] + BytesOf(Open(segs)) + [0])
  }

  /** The whole query the builder writes at `pos`: the 12 header bytes,
      the name in the next |host| + 2 (its last byte zero), then 00 01 00 01 for TYPE A and
      CLASS IN; |host| + 18 bytes in all. It is rejected exactly when the
      name is. */
  function QueryPacket(host: string): (r: Result<seq<Byte>>)
    requires IsCString(host)
    ensures r.Err? ==> r.failure == InvalidHostFormat
    ensures r.Ok? <==> AllLabels(Closed(Split(host, '.')))
    ensures r.Ok? ==> |r.value| == |host| + 18
    ensures r.Ok? ==> r.value[..12] == QueryHeader() && r.value[12..|host| + 14] == QueryName(host).value
    ensures r.Ok? ==> r.value[|host| + 14..] == [0x00, 0x01, 0x00, 0x01]
  {
    var name :- QueryName(host);
    QueryNameLength(host);
    var bs := QueryHeader() + name + ShortBytes(QueryType) + ShortBytes(QueryClass);
    PacketLayout(bs, name);
    Ok(bs)
  }

  /** Where the parts of a query sit: the header in bytes 0 to 11, the name
      from 12 on, TYPE and CLASS in the last four bytes. */
  lemma PacketLayout(bs: seq<Byte>, name: seq<Byte>)
    requires bs == QueryHeader() + name + ShortBytes(QueryType) + ShortBytes(QueryClass)
    ensures |bs| == |name| + 16
    ensures bs[..12] == QueryHeader()
    ensures bs[12..12 + |name|] == name
    ensures bs[12 + |name|..] == ShortBytes(QueryType) + ShortBytes(QueryClass)
  {
    assert bs[12..12 + |name|] == name;
    assert bs[12 + |name|..] == ShortBytes(QueryType) + ShortBytes(QueryClass);
  }

  /** A character other than '.' extends the open run. */
  lemma GrowOpen(host: string, k: nat)
    requires IsCString(host) && k < |host| && host[k] != '.'
    ensures var before, after := Split(host[..k], '.'), Split(host[..k + 1], '.');
            && Closed(after) == Closed(before)
            && IsByteString(Open(before)) && IsByteString(Open(after))
            && Open(after) == Open(before) + [host[k]]
            && BytesOf(Open(after)) == BytesOf(Open(before)) + [host[k] as int]
  {
    var before := Split(host[..k], '.');
    assert host[..k + 1][..k] == host[..k];
    HostRuns(host[..k + 1]);
    HostRuns(host[..k]);
    BytesOfAppend(Open(before), host[k]);
  }

  /** A '.' closes the open run, which joins the closed ones, and opens an
      empty run. */
  lemma CloseOpen(host: string, k: nat)
    requires IsCString(host) && k < |host| && host[k] == '.'
    requires AllLabels(Closed(Split(host[..k], '.'))) && IsLabel(Open(Split(host[..k], '.')))
    ensures var before, after := Split(host[..k], '.'), Split(host[..k + 1], '.');
            && Closed(after) == Closed(before) + [Open(before)]
            && AllLabels(Closed(after))
            && Open(after) == ""
            && LabelBytes(Closed(after)) == LabelBytes(Closed(before)) + [|Open(before)|] + BytesOf(Open(before))
  {
    var before := Split(host[..k], '.');
    assert host[..k + 1][..k] == host[..k];
    assert Split(host[..k + 1], '.') == before + [""];
    assert before == Closed(before) + [Open(before)];
    var closed := Closed(before) + [Open(before)];
    assert closed[..|closed| - 1] == Closed(before);
  }

  /** The run a '.' at `k` closes stays a closed run of the whole host, at
      the same index. */
  lemma ClosedIsFinal(host: string, k: nat)
    requires k < |host| && host[k] == '.'
    ensures var before, whole := Split(host[..k], '.'), Split(host, '.');
            && |before| < |whole|
            && whole[|before| - 1] == Open(before)
  {
    var before := Split(host[..k], '.');
    assert host[..k + 1][..k] == host[..k];
    assert Split(host[..k + 1], '.') == before + [""];
    SplitPrefix(host, k + 1, '.');
  }

  /** Writing a length into a placeholder slot. */
  lemma Patch(a: seq<Byte>, x: Byte, b: seq<Byte>, y: Byte)
    ensures (a + [x] + b)[|a| := y] == a + [y] + b
  {
  }

  /** The state of the builder's loop after `cp` characters of the host:
      the header, the closed runs written out, the slot `lp` still holding a
      placeholder, then the characters of the open run. */
  predicate Pending(host: string, cp: nat, lp: nat, written: seq<Byte>)
    requires cp <= |host|
  {
    var segs := Split(host[..cp], '.');
    && AllLabels(Closed(segs)) && IsByteString(Open(segs))
    && lp == 12 + |LabelBytes(Closed(segs))|
    && written == QueryHeader() + LabelBytes(Closed(segs)) + [0] + BytesOf(Open(segs))
  }

  /** Before the loop only the header and the first slot are written. */
  lemma PendingStart(host: string)
    ensures Pending(host, 0, 12, QueryHeader() + [0])
  {
    assert host[..0] == "";
  }

  /** A character other than '.' is appended to the open run. */
  lemma PendingChar(host: string, cp: nat, lp: nat, written: seq<Byte>)
    requires IsCString(host) && cp < |host| && host[cp] != '.'
    requires Pending(host, cp, lp, written)
    ensures Pending(host, cp + 1, lp, written + [host[cp] as int])
  {
    var segs := Split(host[..cp], '.');
    GrowOpen(host, cp);
    var prefix := QueryHeader() + LabelBytes(Closed(segs)) + [0];
    assert written + [host[cp] as int] == prefix + (BytesOf(Open(segs)) + [host[cp] as int]);
  }

  /** A '.' after an accepted run patches the run's length into the slot and
      opens a new slot right after it. */
  lemma PendingDot(host: string, cp: nat, lp: nat, written: seq<Byte>)
    requires IsCString(host) && cp < |host| && host[cp] == '.'
    requires Pending(host, cp, lp, written)
    requires IsLabel(Open(Split(host[..cp], '.')))
    ensures |written| - lp - 1 == |Open(Split(host[..cp], '.'))|
    ensures Pending(host, cp + 1, |written|, written[lp := |written| - lp - 1] + [0])
  {
    var segs := Split(host[..cp], '.');
    var len := |Open(segs)|;
    Patch(QueryHeader() + LabelBytes(Closed(segs)), 0, BytesOf(Open(segs)), len);
    CloseOpen(host, cp);
    var after := Split(host[..cp + 1], '.');
    assert BytesOf(Open(after)) == [];
    assert written[lp := len] + [0] ==
           QueryHeader() + (LabelBytes(Closed(segs)) + [len] + BytesOf(Open(segs))) + [0] + BytesOf(Open(after));
  }

  /** A '.' that closes a run the builder does not accept as a label makes
      it reject the whole host. */
  lemma BadClosedRun(host: string, i: nat)
    requires IsCString(host) && i < |host| && host[i] == '.'
    requires !IsLabel(Open(Split(host[..i], '.')))
    ensures QueryName(host).Err?
  {
    var before := Split(host[..i], '.');
    ClosedIsFinal(host, i);
    var whole := Split(host, '.');
    assert Closed(whole)[|before| - 1] == Open(before);
  }

  /** A '.' after an empty or over-long run means the host is rejected. */
  lemma PendingReject(host: string, cp: nat, lp: nat, written: seq<Byte>)
    requires IsCString(host) && cp < |host| && host[cp] == '.'
    requires Pending(host, cp, lp, written)
    requires !IsLabel(Open(Split(host[..cp], '.')))
    ensures QueryName(host).Err?
  {
    BadClosedRun(host, cp);
  }

  /** At the end of the host the open run's length, truncated to a byte, is
      patched in and the terminating zero written: the name is complete. */
  lemma PendingEnd(host: string, lp: nat, written: seq<Byte>)
    requires IsCString(host)
    requires Pending(host, |host|, lp, written)
    ensures |written| - lp - 1 >= 0
    ensures QueryName(host).Ok?
    ensures written[lp := (|written| - lp - 1) % 0x100] + [0] == QueryHeader() + QueryName(host).value
  {
    assert host[..|host|] == host;
    var segs := Split(host, '.');
    Patch(QueryHeader() + LabelBytes(Closed(segs)), 0, BytesOf(Open(segs)), |Open(segs)| % 0x100);
    var name := LabelBytes(Closed(segs)) + [|Open(segs)| % 0x100] + BytesOf(Open(segs)) + [0];
    assert written[lp := |Open(segs)| % 0x100] + [0] == QueryHeader() + name;
  }

  /** One pass of the label loop (dns.cpp:380-391) on the character at
      `cp`: any character but '.' is copied; a '.' checks the length of the
      run it closes, rejects the host when it is not 1 to 63, and otherwise
      patches the length into slot `lp` and opens a new slot. `cursor` is the
      source's `pos`. */
  method ScanChar(host: string, pos: nat, cursor: nat, cp: nat, lp: nat, written: seq<Byte>)
    returns (ok: bool, lp': nat, written': seq<Byte>)
    requires IsCString(host) && cp < |host|
    requires cursor == pos + |written|
    requires Pending(host, cp, lp, written)
    ensures !ok ==> QueryName(host).Err?
    ensures ok ==> Pending(host, cp + 1, lp', written') && |written'| == |written| + 1
  {
    var ch := host[cp];
    if ch != '.' {
      PendingChar(host, cp, lp, written);
      ok, lp', written' := true, lp, written + [ch as int];
      return;
    }
    var len := cursor - (pos + lp) - 1;
    if len <= 0 || len > MaxLabel {
      PendingReject(host, cp, lp, written);
      ok, lp', written' := false, lp, written;
      return;
    }
    PendingDot(host, cp, lp, written);
    ok, lp', written' := true, cursor - pos, written[lp := len] + [0];
  }

  /** The header writes and the label loop of BuildDnsQueryPacket
      (dns.cpp:347-392). `lp` is the slot of the pending length byte,
      back-patched when a '.' closes its run; `cursor` is the source's `pos`;
      `last` the last character other than '.' copied. The caller's buffer
      holds the whole packet, so the `pos < end` guard never stops the loop
      early. `ok` is false where the source returns -1. */
  method WriteLabels(host: string, pos: nat, end: nat) returns (ok: bool, lp: nat, last: char, written: seq<Byte>)
    requires IsCString(host)
    requires pos + |host| + 18 <= end
    ensures !ok <==> QueryName(host).Err?
    ensures ok ==> Pending(host, |host|, lp, written) && last != '.'
  {
    written := QueryHeader();
    var cursor: nat := pos + 12;
    var cp := 0;
    last := 0 as char;
    lp := |written|;
    written := written + [0];
    cursor := cursor + 1;
    PendingStart(host);
    while cp < |host| && cursor < end
      invariant 0 <= cp <= |host|
      invariant cursor == pos + |written| && |written| == 13 + cp
      invariant last != '.'
      invariant Pending(host, cp, lp, written)
    {
      var ch := host[cp];
      ok, lp, written := ScanChar(host, pos, cursor, cp, lp, written);
      if !ok {
        return;
      }
      if ch != '.' {
        last := ch;
      }
      cursor := cursor + 1;
      cp := cp + 1;
    }
    PendingEnd(host, lp, written);
    ok := true;
  }

  /** BuildDnsQueryPacket (dns.cpp:341-411): `buf[pos..]` receives `written`
      and the result is the cursor after it, or -1 when a run closed by '.'
      is empty or longer than 63. After the loop the open run's length is
      patched in, truncated to a byte, and a zero byte ends the name; then
      TYPE and CLASS follow. */
  method BuildDnsQueryPacket(host: string, pos: nat, end: nat) returns (ret: int, written: seq<Byte>)
    requires IsCString(host)
    requires pos + |host| + 18 <= end
    ensures ret == -1 <==> QueryPacket(host).Err?
    ensures ret != -1 ==> written == QueryPacket(host).value && ret == pos + |written|
    ensures ret != -1 ==> ret == pos + 12 + |host| + 2 + 4
  {
    var ok, lp, last;
    ok, lp, last, written := WriteLabels(host, pos, end);
    if !ok {
      ret := -1;
      return;
    }
    PendingEnd(host, lp, written);
    var cursor := pos + |written|;
    if last == '.' {
      assert false;
    } else {
      written := written[lp := (cursor - (pos + lp) - 1) % 0x100];
      written := written + [0];
      cursor := cursor + 1;
    }
    written := written + ShortBytes(QueryType) + ShortBytes(QueryClass);
    cursor := cursor + 4;
    ret := cursor;
  }

  /** The name is two bytes longer than the host: one length byte before
      the first run, the others replacing the dots, and the final zero. */
  lemma QueryNameLength(host: string)
    requires IsCString(host) && QueryName(host).Ok?
    ensures |QueryName(host).value| == |host| + 2
  {
    var segs := Split(host, '.');
    JoinSplit(host, '.');
    if |segs| > 1 {
      LabelBytesLength(Closed(segs));
      assert Join(segs, '.') == Join(Closed(segs), '.') + "." + Open(segs);
    }
  }

  /** A '.' that closes an empty run (a leading '.', or ".." anywhere) makes
      the builder reject the host. */
  lemma EmptyRunRejected(host: string, i: nat)
    requires IsCString(host) && i < |host| && host[i] == '.'
    requires i == 0 || host[i - 1] == '.'
    ensures QueryName(host).Err?
  {
    if i == 0 {
      assert host[..0] == "";
    } else {
      assert host[..i][i - 1] == '.';
    }
    assert Open(Split(host[..i], '.')) == "";
    BadClosedRun(host, i);
  }

  /** The open run of a string ends with its last `k` characters when none of
      them is the separator. */
  lemma {:induction false} OpenSuffix(s: string, k: nat, sep: char)
    requires k <= |s|
    requires forall j :: |s| - k <= j < |s| ==> s[j] != sep
    ensures |Open(Split(s, sep))| >= k
    decreases k
  {
    if k > 0 {
      var t := s[..|s| - 1];
      assert forall j :: |t| - (k - 1) <= j < |t| ==> t[j] == s[j];
      OpenSuffix(t, k - 1, sep);
    }
  }

  /** A '.' that closes a run of more than 63 characters makes the builder
      reject the host. */
  lemma LongRunRejected(host: string, i: nat)
    requires IsCString(host) && i < |host| && host[i] == '.' && i > MaxLabel
    requires forall j :: i - MaxLabel - 1 <= j < i ==> host[j] != '.'
    ensures QueryName(host).Err?
  {
    assert forall j :: i - MaxLabel - 1 <= j < i ==> host[..i][j] == host[j];
    OpenSuffix(host[..i], MaxLabel + 1, '.');
    BadClosedRun(host, i);
  }


  /** Hosts whose every run, the last one included, is an accepted label:
      no empty run, no run over 63, no trailing '.'. */
  predicate ValidHost(host: string)
  {
    |Split(host, '.')| >= 1 && AllLabels(Split(host, '.'))
  }

  /** For a valid host the builder writes exactly the labels and a zero. */
  lemma ValidHostName(host: string)
    requires IsCString(host) && ValidHost(host)
    ensures QueryName(host) == Ok(LabelBytes(Split(host, '.')) + [0])
  {
    var segs := Split(host, '.');
    assert segs == Closed(segs) + [Open(segs)];
    assert AllLabels(Closed(segs));
    assert IsLabel(Open(segs));
  }

  /** The labels of a valid host take one byte more than the host. */
  lemma ValidHostLength(host: string)
    requires ValidHost(host)
    ensures |LabelBytes(Split(host, '.'))| == |host| + 1
  {
    JoinSplit(host, '.');
    LabelBytesLength(Split(host, '.'));
  }

  /** The labels of a valid host followed by a zero byte, wherever they sit
      in a buffer, read back as the host. */
  lemma ValidHostAt(buf: seq<Byte>, start: nat, host: string)
    requires ValidHost(host)
    requires start + |LabelBytes(Split(host, '.'))| < |buf|
    requires buf[start..start + |LabelBytes(Split(host, '.'))| + 1] == LabelBytes(Split(host, '.')) + [0]
    ensures ParseName(buf, start) == Ok(Decoded(host, start + |host| + 2))
  {
    JoinSplit(host, '.');
    NameReadBack(buf, start, Split(host, '.'), host);
  }

  /** For a valid host the name sits at offset 12 of the built query. */
  lemma QueryNameAt(host: string)
    requires IsCString(host) && ValidHost(host)
    ensures QueryPacket(host).Ok?
    ensures var bs, lb := QueryPacket(host).value, LabelBytes(Split(host, '.'));
            12 + |lb| < |bs| && bs[12..12 + |lb| + 1] == lb + [0]
  {
    ValidHostName(host);
    PacketLayout(QueryPacket(host).value, LabelBytes(Split(host, '.')) + [0]);
  }

  /** Round trip (the name half): ParseHost at offset 12 of the built query
      reads back the host exactly, and stops two bytes past the host's
      length, just before TYPE. */
  lemma QueryNameRoundTrip(host: string)
    requires IsCString(host) && ValidHost(host)
    ensures QueryPacket(host).Ok?
    ensures ParseName(QueryPacket(host).value, 12) == Ok(Decoded(host, 12 + |host| + 2))
  {
    QueryNameAt(host);
    ValidHostAt(QueryPacket(host).value, 12, host);
  }
}
