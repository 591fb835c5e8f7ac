/** Byte-level vocabulary of the DNS message codec in dns.cpp: octets, the
    outcome of a decoding step, and the big-endian integer readers
    ParseUnsignedShort and ParseUnsignedInt with their encoding partners. */
module Wire {

  /** One octet of a message buffer. */
  type Byte = b: int | 0 <= b < 0x100

  /** Why encoding or decoding stopped. The source reports only the RCODE and
      the invalid host; where it would read past the end of the buffer or
      recurse forever, the model stops with Truncated or PointerLoop. */
  datatype Failure =
    | Truncated                  // a read would pass the end of the buffer
    | PointerLoop                // compression pointers never reach a terminator
    | ServerError(rcode: nat)    // the response header carries a non-zero RCODE
    | InvalidHostFormat          // the builder met an empty or over-long label
  {
    /** A failure of the bytes themselves, as opposed to a reported error. */
    predicate Malformed() { Truncated? || PointerLoop? }
  }

  datatype Result<+T> = Ok(value: T) | Err(failure: Failure) {
    predicate IsFailure() { Err? }

    function PropagateFailure<U>(): Result<U>
      requires Err?
    {
      Err(failure)
    }

    function Extract(): T
      requires Ok?
    {
      value
    }
  }

  /** A decoded value together with the cursor just past it: every parser of
      dns.cpp returns the advanced position alongside what it filled in. */
  datatype Decoded<+T> = Decoded(value: T, next: nat)

  /** Big-endian 16-bit read (dns.cpp:63-68). The shift-and-or of the source
      is an addition here, since the shifted value has a zero low byte. */
  function ParseUnsignedShort(buf: seq<Byte>, pos: nat): (r: Result<Decoded<nat>>)
    ensures r.Ok? <==> pos + 2 <= |buf|
    ensures r.Err? ==> r.failure == Truncated
    ensures r.Ok? ==> r.value.next == pos + 2 && r.value.value < 0x1_0000
  {
    if pos + 2 > |buf| then Err(Truncated)
    else Ok(Decoded(buf[pos] as int * 0x100 + buf[pos + 1], pos + 2))
  }

  /** Big-endian 32-bit read (dns.cpp:54-61). */
  function ParseUnsignedInt(buf: seq<Byte>, pos: nat): (r: Result<Decoded<nat>>)
    ensures r.Ok? <==> pos + 4 <= |buf|
    ensures r.Err? ==> r.failure == Truncated
    ensures r.Ok? ==> r.value.next == pos + 4 && r.value.value < 0x1_0000_0000
  {
    if pos + 4 > |buf| then Err(Truncated)
    else
      var v := ((buf[pos] as int * 0x100 + buf[pos + 1]) * 0x100 + buf[pos + 2]) * 0x100 + buf[pos + 3];
      Ok(Decoded(v, pos + 4))
  }

  /** Network byte order of a 16-bit value, as the builder writes it
      (`0xff & (v >> 8)` then `0xff & v`). */
  function ShortBytes(v: nat): (bs: seq<Byte>)
    requires v < 0x1_0000
    ensures |bs| == 2
  {
    [v / 0x100, v % 0x100]
  }

  /** Network byte order of a 32-bit value. */
  function IntBytes(v: nat): (bs: seq<Byte>)
    requires v < 0x1_0000_0000
    ensures |bs| == 4
  {
    [v / 0x100_0000, (v / 0x1_0000) % 0x100, (v / 0x100) % 0x100, v % 0x100]
  }

  /** Reading back two written bytes yields the written value. */
  lemma ShortRoundTrip(buf: seq<Byte>, pos: nat, v: nat)
    requires v < 0x1_0000
    requires pos + 2 <= |buf| && buf[pos..pos + 2] == ShortBytes(v)
    ensures ParseUnsignedShort(buf, pos) == Ok(Decoded(v, pos + 2))
  {
    assert buf[pos] == v / 0x100 && buf[pos + 1] == v % 0x100 by {
      assert buf[pos..pos + 2][0] == buf[pos] && buf[pos..pos + 2][1] == buf[pos + 1];
    }
  }

  /** Every two bytes are the encoding of the value read from them: together
      with ShortRoundTrip, the reader and ShortBytes are inverse bijections. */
  lemma ShortBytesOfRead(buf: seq<Byte>, pos: nat)
    requires pos + 2 <= |buf|
    ensures ShortBytes(ParseUnsignedShort(buf, pos).value.value) == buf[pos..pos + 2]
  {
    var v := buf[pos] as int * 0x100 + buf[pos + 1];
    assert v / 0x100 == buf[pos] && v % 0x100 == buf[pos + 1];
  }

  /** Reading back four written bytes yields the written value. */
  lemma IntRoundTrip(buf: seq<Byte>, pos: nat, v: nat)
    requires v < 0x1_0000_0000
    requires pos + 4 <= |buf| && buf[pos..pos + 4] == IntBytes(v)
    ensures ParseUnsignedInt(buf, pos) == Ok(Decoded(v, pos + 4))
  {
    var s := buf[pos..pos + 4];
    assert buf[pos] == s[0] && buf[pos + 1] == s[1] && buf[pos + 2] == s[2] && buf[pos + 3] == s[3];
    var a, b, c, d := v / 0x100_0000, (v / 0x1_0000) % 0x100, (v / 0x100) % 0x100, v % 0x100;
    assert v / 0x1_0000 == a * 0x100 + b;
    assert v / 0x100 == (a * 0x100 + b) * 0x100 + c;
  }

  /** Every four bytes are the encoding of the value read from them: together
      with IntRoundTrip, the reader and IntBytes are inverse bijections. */
  lemma IntBytesOfRead(buf: seq<Byte>, pos: nat)
    requires pos + 4 <= |buf|
    ensures IntBytes(ParseUnsignedInt(buf, pos).value.value) == buf[pos..pos + 4]
  {
    var a: nat, b: nat, c: nat, d: nat := buf[pos], buf[pos + 1], buf[pos + 2], buf[pos + 3];
    var ab, abc := a * 0x100 + b, (a * 0x100 + b) * 0x100 + c;
    var v := abc * 0x100 + d;
    LowDigit(abc, d, 0x100);
    LowDigit(ab, c, 0x100);
    LowDigit(a, b, 0x100);
    LowDigit(ab, c * 0x100 + d, 0x1_0000);
    LowDigit(a, b * 0x1_0000 + c * 0x100 + d, 0x100_0000);
  }

  /** Dividing `x * m + y` by `m` leaves `x` and the remainder `y`. */
  lemma LowDigit(x: nat, y: nat, m: nat)
    requires m in {0x100, 0x1_0000, 0x100_0000} && y < m
    ensures (x * m + y) / m == x && (x * m + y) % m == y
  {
    if m == 0x100 {
      assert (x * 0x100 + y) / 0x100 == x;
    } else if m == 0x1_0000 {
      assert (x * 0x1_0000 + y) / 0x1_0000 == x;
    } else {
      assert (x * 0x100_0000 + y) / 0x100_0000 == x;
    }
  }

  /** A window of a window is a window of the whole buffer. */
  lemma SliceOfSlice(buf: seq<Byte>, lo: nat, hi: nat, i: nat, j: nat)
    requires lo <= hi <= |buf| && i <= j <= hi - lo
    ensures buf[lo..hi][i..j] == buf[lo + i..lo + j]
  {
    forall k | 0 <= k < j - i ensures buf[lo..hi][i..j][k] == buf[lo + i..lo + j][k] {
      assert buf[lo..hi][i..j][k] == buf[lo..hi][i + k] == buf[lo + i + k];
    }
  }
}
