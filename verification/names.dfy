/** The name codec of dns.cpp: ParseHost decodes length-prefixed labels and
    follows compression pointers (RFC 1035 sections 3.1 and 4.1.4); the
    label encoding the builder writes is LabelBytes. */
module Names {
  import opened Wire
  import opened Text

  /** Longest label a length byte can announce without its top bits set. */
  const MaxLabel := 63

  /** The loop of ParseHost stops on a length byte with either of its two top
      bits set (`len & 0xc0`, dns.cpp:74-76 and 84); RFC 1035 section 4.1.4
      reserves 0x40 and 0x80 and marks pointers with both bits. */
  predicate IsPointer(len: Byte)
    ensures IsPointer(len) <==> 0x40 <= len
  {
    len / 0x40 != 0
  }

  /** The offset the pointer `len, low` designates: `((0xc0 ^ len) << 8) | low`
      (dns.cpp:85). XOR with 0xc0 flips the two top bits, so the top two-bit
      group h becomes 3 - h while the low six bits stay. For a standard
      pointer (both bits set) this is the 14-bit offset of RFC 1035; for the
      reserved patterns 0x40 and 0x80 it lands at 0x8000 or 0x4000 and above. */
  function PointerOffset(len: Byte, low: Byte): (offset: nat)
    ensures offset < 0x1_0000
    ensures len >= 0xC0 ==> offset == (len - 0xC0) * 0x100 + low && offset < 0x4000
  {
    ((3 - len / 0x40) * 0x40 + len % 0x40) * 0x100 + low
  }

  /** ParseHost (dns.cpp:70-89): the name starting with the length byte at
      `pos`, and the cursor just past the name's last byte in this run (one
      past the terminating zero, or two past a pointer). Each pointer followed
      spends one unit of `fuel`; the source has no such bound. */
  function ParseHost(buf: seq<Byte>, pos: nat, fuel: nat): (r: Result<Decoded<string>>)
    ensures r.Ok? ==> pos < r.value.next <= |buf|
    ensures r.Err? ==> r.failure.Malformed()
    decreases fuel, |buf| - pos, 1
  {
    if pos >= |buf| then Err(Truncated)
    else Walk(buf, buf[pos], pos + 1, fuel)
  }

  /** The loop of ParseHost once the length byte `len` has been read and the
      cursor `pos` stands just after it. A label is appended, followed by "."
      when the next length byte is non-zero (dns.cpp:77-82); a pointer appends
      the name found at its offset and ends the run (dns.cpp:84-87). */
  function Walk(buf: seq<Byte>, len: Byte, pos: nat, fuel: nat): (r: Result<Decoded<string>>)
    requires pos <= |buf|
    ensures r.Ok? ==> pos <= r.value.next <= |buf|
    ensures r.Err? ==> r.failure.Malformed()
    decreases fuel, |buf| - pos, 0
  {
    if len == 0 then Ok(Decoded("", pos))
    else if IsPointer(len) then
      if pos >= |buf| then Err(Truncated)
      else if fuel == 0 then Err(PointerLoop)
      else
        var target :- ParseHost(buf, PointerOffset(len, buf[pos]), fuel - 1);
        Ok(Decoded(target.value, pos + 1))
    else if pos + len >= |buf| then Err(Truncated)
    else
      var next := buf[pos + len];
      var rest :- Walk(buf, next, pos + len + 1, fuel);
      Ok(Decoded(TextOf(buf[pos..pos + len]) + (if next != 0 then "." else "") + rest.value, rest.next))
  }

  /** A name as the parsers read it, with |buf| hops: as many as any
      number more (FuelSuffices), so `PointerLoop` here means the chain of
      pointers from `pos` never ends (LoopMeansEndless), where the source
      would recurse without bound. */
  function ParseName(buf: seq<Byte>, pos: nat): (r: Result<Decoded<string>>)
    ensures r.Ok? ==> pos < r.value.next <= |buf|
    ensures r.Err? ==> r.failure.Malformed()
  {
    ParseHost(buf, pos, |buf|)
  }

  /** A label the builder accepts: 1 to 63 single-byte characters. */
  predicate IsLabel(s: string)
  {
    1 <= |s| <= MaxLabel && IsByteString(s)
  }

  /** A run of labels the builder accepts. */
  predicate AllLabels(segs: seq<string>)
    ensures AllLabels(segs) ==> Encodable(segs)
  {
    forall i :: 0 <= i < |segs| ==> IsLabel(segs[i])
  }

  /** Strings that fit behind one length byte. */
  predicate Encodable(segs: seq<string>)
  {
    forall i :: 0 <= i < |segs| ==> |segs[i]| < 0x100 && IsByteString(segs[i])
  }

  /** Each label as its length byte followed by its characters (RFC 1035
      section 3.1), without the terminating zero. */
  function LabelBytes(segs: seq<string>): (bs: seq<Byte>)
    requires Encodable(segs)
  {
    if |segs| == 0 then []
    else LabelBytes(segs[..|segs| - 1]) + [|segs[|segs| - 1]|] + BytesOf(segs[|segs| - 1])
  }

  /** The last label is written last. */
  lemma LabelBytesSnoc(segs: seq<string>)
    requires |segs| > 0 && Encodable(segs)
    ensures Encodable(segs[..|segs| - 1])
    ensures LabelBytes(segs) == LabelBytes(segs[..|segs| - 1]) + ([|segs[|segs| - 1]|] + BytesOf(segs[|segs| - 1]))
  {
  }

  lemma {:induction false} LabelBytesCons(s: string, rest: seq<string>)
    requires Encodable([s] + rest)
    ensures |s| < 0x100 && IsByteString(s) && Encodable(rest)
    ensures LabelBytes([s] + rest) == [|s|] + BytesOf(s) + LabelBytes(rest)
    decreases |rest|
  {
    assert s == ([s] + rest)[0];
    assert forall i :: 0 <= i < |rest| ==> rest[i] == ([s] + rest)[i + 1];
    if |rest| > 0 {
      var whole, init, last := [s] + rest, rest[..|rest| - 1], rest[|rest| - 1];
      assert whole[..|whole| - 1] == [s] + init && whole[|whole| - 1] == last;
      LabelBytesCons(s, init);
      LabelBytesSnoc(whole);
      LabelBytesSnoc(rest);
      var tail := [|last|] + BytesOf(last);
      assert LabelBytes(whole) == [|s|] + BytesOf(s) + (LabelBytes(init) + tail);
    }
  }

  /** Encoded names are one byte longer than their dotted form. */
  lemma {:induction false} LabelBytesLength(segs: seq<string>)
    requires |segs| >= 1 && Encodable(segs)
    ensures |LabelBytes(segs)| == |Join(segs, '.')| + 1
    decreases |segs|
  {
    if |segs| > 1 {
      LabelBytesLength(segs[..|segs| - 1]);
    }
  }

  /** The empty name: a leading zero byte yields "" and the cursor after it. */
  lemma RootName(buf: seq<Byte>, pos: nat, fuel: nat)
    requires pos < |buf| && buf[pos] == 0
    ensures ParseHost(buf, pos, fuel) == Ok(Decoded("", pos + 1))
  {
  }

  /** A pointer at `p` ends the name two bytes later, whatever the length of
      the name it designates, and the text is that name's. */
  lemma PointerJump(buf: seq<Byte>, p: nat, fuel: nat)
    requires p + 1 < |buf| && IsPointer(buf[p])
    ensures var target := ParseHost(buf, PointerOffset(buf[p], buf[p + 1]), fuel);
            ParseHost(buf, p, fuel + 1) ==
              if target.Err? then target else Ok(Decoded(target.value.value, p + 2))
  {
  }

  /** `text`, then "." when the length byte `b` that follows it is not zero,
      then the name `tail` read from that byte on. */
  function Prefixed(text: string, b: Byte, tail: Result<Decoded<string>>): Result<Decoded<string>>
  {
    if tail.Err? then tail
    else Ok(Decoded(text + (if b != 0 then "." else "") + tail.value.value, tail.value.next))
  }

  /** Two prefixes in a row are one prefix when the byte between them is
      not zero (the "." is then written). */
  lemma PrefixedCompose(s: string, t: string, b1: Byte, b: Byte, tail: Result<Decoded<string>>)
    requires b1 != 0
    ensures Prefixed(s, b1, Prefixed(t, b, tail)) == Prefixed(s + "." + t, b, tail)
  {
    if tail.Ok? {
      var dot := if b != 0 then "." else "";
      assert s + "." + (t + dot + tail.value.value) == (s + "." + t) + dot + tail.value.value;
    }
  }

  /** PrefixedCompose for readings known only through equations. */
  lemma PrefixedChain(first: Result<Decoded<string>>, second: Result<Decoded<string>>, tail: Result<Decoded<string>>,
                      s: string, t: string, joined: string, b1: Byte, b: Byte)
    requires b1 != 0 && joined == s + "." + t
    requires first == Prefixed(s, b1, second) && second == Prefixed(t, b, tail)
    ensures first == Prefixed(joined, b, tail)
  {
    PrefixedCompose(s, t, b1, b, tail);
  }

  /** One label at `start`: its text, then "." if the byte after it is not
      zero, then the name read from that byte on. */
  lemma OneLabel(buf: seq<Byte>, start: nat, s: string, fuel: nat)
    requires IsLabel(s)
    requires start + 1 + |s| < |buf|
    requires buf[start] == |s| && buf[start + 1..start + 1 + |s|] == BytesOf(s)
    ensures var q := start + 1 + |s|;
            ParseHost(buf, start, fuel) == Prefixed(s, buf[q], ParseHost(buf, q, fuel))
  {
    TextOfBytesOf(s);
  }

  /** The window of a label run splits into its first label and the rest. */
  lemma LabelWindow(buf: seq<Byte>, start: nat, s: string, rest: seq<string>)
    requires Encodable([s] + rest)
    requires start + |LabelBytes([s] + rest)| <= |buf|
    requires buf[start..start + |LabelBytes([s] + rest)|] == LabelBytes([s] + rest)
    ensures |s| < 0x100 && IsByteString(s) && Encodable(rest)
    ensures |LabelBytes([s] + rest)| == 1 + |s| + |LabelBytes(rest)|
    ensures buf[start] == |s| && buf[start + 1..start + 1 + |s|] == BytesOf(s)
    ensures buf[start + 1 + |s|..start + |LabelBytes([s] + rest)|] == LabelBytes(rest)
  {
    LabelBytesCons(s, rest);
    var q := start + |LabelBytes([s] + rest)|;
    var window := buf[start..q];
    assert window == [|s|] + BytesOf(s) + LabelBytes(rest);
    assert buf[start] == window[0];
    assert window[1..1 + |s|] == BytesOf(s);
    assert buf[start + 1..start + 1 + |s|] == BytesOf(s) by {
      forall k | 0 <= k < |s|
        ensures buf[start + 1..start + 1 + |s|][k] == BytesOf(s)[k]
      {
        assert buf[start + 1 + k] == window[1 + k];
      }
    }
    assert window[1 + |s|..] == LabelBytes(rest);
    assert buf[start + 1 + |s|..q] == LabelBytes(rest) by {
      forall k | 0 <= k < |LabelBytes(rest)|
        ensures buf[start + 1 + |s|..q][k] == LabelBytes(rest)[k]
      {
        assert buf[start + 1 + |s| + k] == window[1 + |s| + k];
      }
    }
  }

  /** The window of a run of accepted labels: its first label, then the
      window of the remaining labels. */
  lemma LabelStep(buf: seq<Byte>, start: nat, segs: seq<string>)
    requires |segs| >= 1 && AllLabels(segs)
    requires start + |LabelBytes(segs)| <= |buf|
    requires buf[start..start + |LabelBytes(segs)|] == LabelBytes(segs)
    ensures IsLabel(segs[0]) && AllLabels(segs[1..])
    ensures |LabelBytes(segs)| == 1 + |segs[0]| + |LabelBytes(segs[1..])|
    ensures buf[start] == |segs[0]| && buf[start + 1..start + 1 + |segs[0]|] == BytesOf(segs[0])
    ensures buf[start + 1 + |segs[0]|..start + |LabelBytes(segs)|] == LabelBytes(segs[1..])
  {
    var s, rest := segs[0], segs[1..];
    assert segs == [s] + rest;
    assert IsLabel(s);
    assert AllLabels(rest) by {
      assert forall i :: 0 <= i < |rest| ==> rest[i] == segs[i + 1];
    }
    LabelWindow(buf, start, s, rest);
  }

  /** The first label of a run of two or more: its text, a ".", then the
      name read from the second length byte, which is not zero. */
  lemma FirstLabel(buf: seq<Byte>, start: nat, segs: seq<string>, fuel: nat)
    requires |segs| > 1 && AllLabels(segs)
    requires start + |LabelBytes(segs)| < |buf|
    requires buf[start..start + |LabelBytes(segs)|] == LabelBytes(segs)
    ensures var q1 := start + 1 + |segs[0]|;
            && q1 < |buf| && buf[q1] != 0
            && ParseHost(buf, start, fuel) == Prefixed(segs[0], buf[q1], ParseHost(buf, q1, fuel))
  {
    LabelStep(buf, start, segs);
    OneLabel(buf, start, segs[0], fuel);
    LabelStep(buf, start + 1 + |segs[0]|, segs[1..]);
  }

  /** One label in front of a run of labels whose reading is known. */
  lemma LabelPrefixStep(buf: seq<Byte>, start: nat, segs: seq<string>, fuel: nat)
    requires |segs| > 1 && AllLabels(segs)
    requires start + |LabelBytes(segs)| < |buf|
    requires buf[start..start + |LabelBytes(segs)|] == LabelBytes(segs)
    requires var q, q1 := start + |LabelBytes(segs)|, start + 1 + |segs[0]|;
             ParseHost(buf, q1, fuel) == Prefixed(Join(segs[1..], '.'), buf[q], ParseHost(buf, q, fuel))
    ensures var q := start + |LabelBytes(segs)|;
            ParseHost(buf, start, fuel) == Prefixed(Join(segs, '.'), buf[q], ParseHost(buf, q, fuel))
  {
    FirstLabel(buf, start, segs, fuel);
    var q := start + |LabelBytes(segs)|;
    var q1 := start + 1 + |segs[0]|;
    var rest := segs[1..];
    assert [segs[0]] + rest == segs;
    JoinCons(segs[0], rest, '.');
    PrefixedChain(ParseHost(buf, start, fuel), ParseHost(buf, q1, fuel), ParseHost(buf, q, fuel),
                  segs[0], Join(rest, '.'), Join(segs, '.'), buf[q1], buf[q]);
  }

  /** The labels after the first one sit right after it and end where the
      whole run ends. */
  lemma RestOfRun(buf: seq<Byte>, start: nat, segs: seq<string>)
    requires |segs| > 1 && AllLabels(segs)
    requires start + |LabelBytes(segs)| < |buf|
    requires buf[start..start + |LabelBytes(segs)|] == LabelBytes(segs)
    ensures var q1, rest := start + 1 + |segs[0]|, segs[1..];
            && |rest| >= 1 && AllLabels(rest)
            && q1 + |LabelBytes(rest)| == start + |LabelBytes(segs)|
            && buf[q1..q1 + |LabelBytes(rest)|] == LabelBytes(rest)
  {
    LabelStep(buf, start, segs);
  }

  /** A run of one label. */
  lemma SingleLabelRun(buf: seq<Byte>, start: nat, segs: seq<string>, fuel: nat)
    requires |segs| == 1 && AllLabels(segs)
    requires start + |LabelBytes(segs)| < |buf|
    requires buf[start..start + |LabelBytes(segs)|] == LabelBytes(segs)
    ensures var q := start + |LabelBytes(segs)|;
            ParseHost(buf, start, fuel) == Prefixed(Join(segs, '.'), buf[q], ParseHost(buf, q, fuel))
  {
    LabelStep(buf, start, segs);
    OneLabel(buf, start, segs[0], fuel);
  }

  /** A run of labels followed by whatever sits at `q`: the labels, joined by
      ".", then "." if the byte at `q` is not zero, then the name at `q`; the
      cursor is the one reading at `q` returns. */
  lemma {:induction false} LabelPrefix(buf: seq<Byte>, start: nat, segs: seq<string>, fuel: nat)
    requires |segs| >= 1 && AllLabels(segs)
    requires start + |LabelBytes(segs)| < |buf|
    requires buf[start..start + |LabelBytes(segs)|] == LabelBytes(segs)
    ensures var q := start + |LabelBytes(segs)|;
            ParseHost(buf, start, fuel) == Prefixed(Join(segs, '.'), buf[q], ParseHost(buf, q, fuel))
    decreases |segs|
  {
    if |segs| > 1 {
      RestOfRun(buf, start, segs);
      LabelPrefix(buf, start + 1 + |segs[0]|, segs[1..], fuel);
      LabelPrefixStep(buf, start, segs, fuel);
    } else {
      SingleLabelRun(buf, start, segs, fuel);
    }
  }

  /** Label-only names decode to their labels joined by "." and leave the
      cursor one past the terminating zero. */
  lemma NameRoundTrip(buf: seq<Byte>, start: nat, segs: seq<string>, fuel: nat)
    requires |segs| >= 1 && AllLabels(segs)
    requires start + |LabelBytes(segs)| < |buf|
    requires buf[start..start + |LabelBytes(segs)| + 1] == LabelBytes(segs) + [0]
    ensures ParseHost(buf, start, fuel) == Ok(Decoded(Join(segs, '.'), start + |LabelBytes(segs)| + 1))
  {
    var q := start + |LabelBytes(segs)|;
    assert buf[start..q] == buf[start..q + 1][..q - start];
    assert buf[q] == buf[start..q + 1][q - start];
    LabelPrefix(buf, start, segs, fuel);
    RootName(buf, q, fuel);
    assert Join(segs, '.') + "" + "" == Join(segs, '.');
  }
  /** NameRoundTrip as the record parsers see it: the name is read back and
      the cursor lands two bytes past its dotted text (one length byte per
      label stands in for each dot, plus the leading length and the zero). */
  lemma NameReadBack(buf: seq<Byte>, start: nat, segs: seq<string>, name: string)
    requires |segs| >= 1 && AllLabels(segs) && Join(segs, '.') == name
    requires start + |LabelBytes(segs)| < |buf|
    requires buf[start..start + |LabelBytes(segs)| + 1] == LabelBytes(segs) + [0]
    ensures ParseName(buf, start) == Ok(Decoded(name, start + |name| + 2))
  {
    NameRoundTrip(buf, start, segs, |buf|);
    LabelBytesLength(segs);
  }

  /** A prefix in front of a pointer's reading. */
  lemma PrefixedPointer(first: Result<Decoded<string>>, second: Result<Decoded<string>>, target: Result<Decoded<string>>,
                        text: string, b: Byte, next: nat)
    requires b != 0 && first == Prefixed(text, b, second)
    requires second == if target.Err? then target else Ok(Decoded(target.value.value, next))
    ensures first == if target.Err? then target else Ok(Decoded(text + "." + target.value.value, next))
  {
  }

  /** Labels then a pointer at `p`: the labels, ".", and the name the pointer
      designates; the cursor stops two past the pointer. */
  lemma LabelsThenPointer(buf: seq<Byte>, start: nat, segs: seq<string>, fuel: nat)
    requires |segs| >= 1 && AllLabels(segs)
    requires start + |LabelBytes(segs)| + 1 < |buf|
    requires buf[start..start + |LabelBytes(segs)|] == LabelBytes(segs)
    requires IsPointer(buf[start + |LabelBytes(segs)|])
    ensures var p := start + |LabelBytes(segs)|;
            var target := ParseHost(buf, PointerOffset(buf[p], buf[p + 1]), fuel);
            ParseHost(buf, start, fuel + 1) ==
              if target.Err? then target
              else Ok(Decoded(Join(segs, '.') + "." + target.value.value, p + 2))
  {
    var p := start + |LabelBytes(segs)|;
    LabelPrefix(buf, start, segs, fuel + 1);
    PointerJump(buf, p, fuel);
    PrefixedPointer(ParseHost(buf, start, fuel + 1), ParseHost(buf, p, fuel + 1),
                    ParseHost(buf, PointerOffset(buf[p], buf[p + 1]), fuel), Join(segs, '.'), buf[p], p + 2);
  }

  /** More fuel changes nothing once a name decodes (or fails for a reason
      other than running out of hops). */
  lemma {:induction false} FuelMonotone(buf: seq<Byte>, pos: nat, fuel: nat, more: nat)
    requires fuel <= more
    requires ParseHost(buf, pos, fuel) != Err(PointerLoop)
    ensures ParseHost(buf, pos, more) == ParseHost(buf, pos, fuel)
    decreases fuel, |buf| - pos, 1
  {
    if pos < |buf| {
      WalkFuelMonotone(buf, buf[pos], pos + 1, fuel, more);
    }
  }

  lemma {:induction false} WalkFuelMonotone(buf: seq<Byte>, len: Byte, pos: nat, fuel: nat, more: nat)
    requires pos <= |buf| && fuel <= more
    requires Walk(buf, len, pos, fuel) != Err(PointerLoop)
    ensures Walk(buf, len, pos, more) == Walk(buf, len, pos, fuel)
    decreases fuel, |buf| - pos, 0
  {
    if len == 0 {
    } else if IsPointer(len) {
      if pos < |buf| && fuel > 0 {
        FuelMonotone(buf, PointerOffset(len, buf[pos]), fuel - 1, more - 1);
      }
    } else if pos + len < |buf| {
      WalkFuelMonotone(buf, buf[pos + len], pos + len + 1, fuel, more);
    }
  }

  // Pointer chains. ParseHost spends fuel only on pointers, so whether it
  // runs out depends only on the chain of start positions the pointers
  // lead to.

  datatype Option<T> = None | Some(value: T)

  /** Where the run of labels at `pos` hands over through a pointer: the
      start of the name the pointer designates, or None when the run ends
      in a zero byte or runs off the buffer. */
  function NextStart(buf: seq<Byte>, pos: nat): (r: Option<nat>)
    ensures r.Some? ==> pos < |buf|
    decreases |buf| - pos, 1
  {
    if pos >= |buf| then None else WalkTarget(buf, buf[pos], pos + 1)
  }

  function WalkTarget(buf: seq<Byte>, len: Byte, pos: nat): Option<nat>
    requires pos <= |buf|
    decreases |buf| - pos, 0
  {
    if len == 0 then None
    else if IsPointer(len) then
      if pos >= |buf| then None else Some(PointerOffset(len, buf[pos]))
    else if pos + len >= |buf| then None
    else WalkTarget(buf, buf[pos + len], pos + len + 1)
  }

  /** The start reached from `pos` after `n` pointers, if there are that
      many. */
  function Hops(buf: seq<Byte>, pos: nat, n: nat): Option<nat>
    decreases n
  {
    if n == 0 then Some(pos)
    else match NextStart(buf, pos)
      case None => None
      case Some(t) => Hops(buf, t, n - 1)
  }

  /** The chain of pointers from `pos` goes on for ever. */
  ghost predicate EndlessChain(buf: seq<Byte>, pos: nat)
  {
    forall n :: Hops(buf, pos, n).Some?
  }

  /** A run of labels runs out of hops exactly when it ends in a pointer and
      either no hop is left or the name pointed to runs out. */
  lemma {:induction false} WalkLoop(buf: seq<Byte>, len: Byte, pos: nat, fuel: nat)
    requires pos <= |buf|
    ensures Walk(buf, len, pos, fuel) == Err(PointerLoop) <==>
              WalkTarget(buf, len, pos).Some? &&
              (fuel == 0 || ParseHost(buf, WalkTarget(buf, len, pos).value, fuel - 1) == Err(PointerLoop))
    decreases |buf| - pos
  {
    if len != 0 && !IsPointer(len) && pos + len < |buf| {
      WalkLoop(buf, buf[pos + len], pos + len + 1, fuel);
    }
  }

  /** ParseHost runs out of `fuel` hops exactly when `fuel + 1` pointers
      follow one another from `pos`. */
  lemma {:induction false} LoopIffHops(buf: seq<Byte>, pos: nat, fuel: nat)
    ensures ParseHost(buf, pos, fuel) == Err(PointerLoop) <==> Hops(buf, pos, fuel + 1).Some?
    decreases fuel
  {
    if pos < |buf| {
      WalkLoop(buf, buf[pos], pos + 1, fuel);
      var next := NextStart(buf, pos);
      if next.Some? && fuel > 0 {
        LoopIffHops(buf, next.value, fuel - 1);
      }
    }
  }

  /** `a` hops then `b` hops are `a + b` hops. */
  lemma {:induction false} HopsSplit(buf: seq<Byte>, pos: nat, a: nat, b: nat)
    ensures Hops(buf, pos, a + b) ==
              if Hops(buf, pos, a).Some? then Hops(buf, Hops(buf, pos, a).value, b) else None
    decreases a
  {
    if a > 0 {
      var next := NextStart(buf, pos);
      if next.Some? {
        HopsSplit(buf, next.value, a - 1, b);
      }
    }
  }

  /** The first `n` starts of a chain of `n` pointers all lie inside the
      buffer. */
  lemma StartsInside(buf: seq<Byte>, pos: nat, n: nat, k: nat)
    requires Hops(buf, pos, n).Some? && k < n
    ensures Hops(buf, pos, k).Some? && Hops(buf, pos, k).value < |buf|
  {
    HopsSplit(buf, pos, k + 1, n - k - 1);
    HopsSplit(buf, pos, k, 1);
  }

  predicate Distinct(ps: seq<nat>)
  {
    forall a, b :: 0 <= a < b < |ps| ==> ps[a] != ps[b]
  }

  /** Pigeonhole: distinct numbers below `n` are at most `n`. The largest
      value is swapped for the last element, which is then dropped. */
  lemma {:induction false} DistinctBound(ps: seq<nat>, n: nat)
    requires Distinct(ps) && forall k :: 0 <= k < |ps| ==> ps[k] < n
    ensures |ps| <= n
    decreases n
  {
    if |ps| > 0 {
      var x := ps[|ps| - 1];
      var qs := seq(|ps| - 1, k requires 0 <= k < |ps| - 1 => if ps[k] == n - 1 then x else ps[k]);
      forall k | 0 <= k < |qs|
        ensures qs[k] < n - 1
      {
        if ps[k] == n - 1 {
          assert x != ps[k];
        }
      }
      forall a, b | 0 <= a < b < |qs|
        ensures qs[a] != qs[b]
      {
        assert ps[a] != ps[b] && ps[a] != x && ps[b] != x;
      }
      DistinctBound(qs, n - 1);
    }
  }

  /** A chain of more than |buf| pointers comes back to a start it has
      already visited. */
  lemma RepeatedStart(buf: seq<Byte>, pos: nat) returns (i: nat, j: nat)
    requires Hops(buf, pos, |buf| + 1).Some?
    ensures i < j <= |buf| && Hops(buf, pos, i).Some? && Hops(buf, pos, i) == Hops(buf, pos, j)
  {
    var ps := seq(|buf| + 1, (k: nat) => if Hops(buf, pos, k).Some? then Hops(buf, pos, k).value else 0);
    forall k | 0 <= k < |ps|
      ensures Hops(buf, pos, k).Some? && ps[k] == Hops(buf, pos, k).value && ps[k] < |buf|
    {
      StartsInside(buf, pos, |buf| + 1, k);
    }
    if Distinct(ps) {
      DistinctBound(ps, |buf|);
      assert false;
    }
    i, j :| 0 <= i < j < |ps| && ps[i] == ps[j];
  }

  /** A chain of more than |buf| pointers never ends. */
  lemma {:induction false} HopsCycle(buf: seq<Byte>, pos: nat, n: nat)
    requires Hops(buf, pos, |buf| + 1).Some?
    ensures Hops(buf, pos, n).Some?
    decreases n
  {
    if n <= |buf| + 1 {
      HopsSplit(buf, pos, n, |buf| + 1 - n);
    } else {
      var i, j := RepeatedStart(buf, pos);
      HopsSplit(buf, pos, j, n - j);
      HopsSplit(buf, pos, i, n - j);
      HopsCycle(buf, pos, i + (n - j));
    }
  }

  /** With |buf| hops, ParseHost runs out exactly on an endless chain. */
  lemma LoopMeansEndless(buf: seq<Byte>, pos: nat)
    ensures ParseName(buf, pos) == Err(PointerLoop) <==> EndlessChain(buf, pos)
  {
    LoopIffHops(buf, pos, |buf|);
    if Hops(buf, pos, |buf| + 1).Some? {
      forall n
        ensures Hops(buf, pos, n).Some?
      {
        HopsCycle(buf, pos, n);
      }
    }
  }

  /** |buf| hops are as good as any more: a chain that ends does so within
      |buf| pointers, and one that does not runs out of any number. */
  lemma FuelSuffices(buf: seq<Byte>, pos: nat, more: nat)
    requires more >= |buf|
    ensures ParseHost(buf, pos, more) == ParseName(buf, pos)
  {
    if ParseHost(buf, pos, |buf|) == Err(PointerLoop) {
      LoopIffHops(buf, pos, |buf|);
      HopsCycle(buf, pos, more + 1);
      LoopIffHops(buf, pos, more);
    } else {
      FuelMonotone(buf, pos, |buf|, more);
    }
  }
}
