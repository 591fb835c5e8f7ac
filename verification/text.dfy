/** Text vocabulary shared by the name codec and the RDATA interpreter:
    bytes as characters, splitting on and joining with a separator, and the
    decimal rendering that `snprintf("%d")` produces. */
module Text {
  import opened Wire

  /** A NUL-terminated C string's contents: single-byte, non-zero characters. */
  predicate IsCString(s: string) {
    forall i :: 0 <= i < |s| ==> 0 < s[i] as int < 0x100
  }

  /** Characters that each fit in one byte. */
  predicate IsByteString(s: string) {
    forall i :: 0 <= i < |s| ==> s[i] as int < 0x100
  }

  /** The characters of a byte run, as `std::string::append(buf + pos, len)`
      copies them. */
  function TextOf(bs: seq<Byte>): (s: string)
    ensures |s| == |bs|
    ensures forall i :: 0 <= i < |bs| ==> s[i] as int == bs[i]
  {
    seq(|bs|, i requires 0 <= i < |bs| => bs[i] as char)
  }

  /** The bytes of single-byte text, as `buf[pos++] = ch` stores them. */
  function BytesOf(s: string): (bs: seq<Byte>)
    requires IsByteString(s)
    ensures |bs| == |s|
    ensures forall i :: 0 <= i < |s| ==> bs[i] == s[i] as int
  {
    seq(|s|, i requires 0 <= i < |s| => s[i] as int)
  }

  lemma TextOfBytesOf(s: string)
    requires IsByteString(s)
    ensures TextOf(BytesOf(s)) == s
  {
  }

  lemma BytesOfAppend(s: string, c: char)
    requires IsByteString(s + [c])
    ensures IsByteString(s) && BytesOf(s + [c]) == BytesOf(s) + [c as int]
  {
    assert forall i :: 0 <= i < |s| ==> s[i] == (s + [c])[i];
  }

  /** Splitting on `sep`: the maximal separator-free runs, in order; n
      separators give n + 1 runs, some possibly empty. */
  function Split(s: string, sep: char): (segs: seq<string>)
    ensures |segs| >= 1
    decreases |s|
  {
    if |s| == 0 then [""]
    else
      var init := Split(s[..|s| - 1], sep);
      if s[|s| - 1] == sep then init + [""]
      else init[..|init| - 1] + [init[|init| - 1] + [s[|s| - 1]]]
  }

  /** The runs written out with `sep` between neighbours. */
  function Join(segs: seq<string>, sep: char): string
  {
    if |segs| == 0 then ""
    else if |segs| == 1 then segs[0]
    else Join(segs[..|segs| - 1], sep) + [sep] + segs[|segs| - 1]
  }

  /** Every run of a split is separator-free, and single-byte or C-string
      text when the input is. */
  lemma {:induction false} SplitSegments(s: string, sep: char)
    ensures forall i :: 0 <= i < |Split(s, sep)| ==> sep !in Split(s, sep)[i]
    ensures IsByteString(s) ==> forall i :: 0 <= i < |Split(s, sep)| ==> IsByteString(Split(s, sep)[i])
    ensures IsCString(s) ==> forall i :: 0 <= i < |Split(s, sep)| ==> IsCString(Split(s, sep)[i])
    decreases |s|
  {
    if |s| > 0 {
      var t := s[..|s| - 1];
      SplitSegments(t, sep);
      var init := Split(t, sep);
      if s[|s| - 1] != sep {
        var last := init[|init| - 1];
        var grown := last + [s[|s| - 1]];
        assert sep !in grown;
        assert forall k :: 0 <= k < |last| ==> grown[k] == last[k];
      }
    }
  }

  /** A separator-free string splits into itself alone. */
  lemma {:induction false} SplitFree(w: string, sep: char)
    requires sep !in w
    ensures Split(w, sep) == [w]
    decreases |w|
  {
    if |w| > 0 {
      var t := w[..|w| - 1];
      assert sep !in t by { assert forall k :: 0 <= k < |t| ==> t[k] == w[k]; }
      SplitFree(t, sep);
      assert t + [w[|w| - 1]] == w;
    }
  }

  /** Appending a separator and a free run adds exactly that run. */
  lemma {:induction false} SplitAppend(s: string, sep: char, w: string)
    requires sep !in w
    ensures Split(s + [sep] + w, sep) == Split(s, sep) + [w]
    decreases |w|
  {
    if |w| == 0 {
      assert (s + [sep] + w)[..|s|] == s;
    } else {
      var t := w[..|w| - 1];
      assert sep !in t by { assert forall k :: 0 <= k < |t| ==> t[k] == w[k]; }
      SplitAppend(s, sep, t);
      assert (s + [sep] + w)[..|s + [sep] + w| - 1] == s + [sep] + t;
      assert t + [w[|w| - 1]] == w;
    }
  }

  /** Splitting undoes joining separator-free runs. */
  lemma {:induction false} SplitJoin(segs: seq<string>, sep: char)
    requires |segs| >= 1
    requires forall i :: 0 <= i < |segs| ==> sep !in segs[i]
    ensures Split(Join(segs, sep), sep) == segs
    decreases |segs|
  {
    if |segs| == 1 {
      SplitFree(segs[0], sep);
    } else {
      var init := segs[..|segs| - 1];
      SplitJoin(init, sep);
      SplitAppend(Join(init, sep), sep, segs[|segs| - 1]);
      assert init + [segs[|segs| - 1]] == segs;
    }
  }

  /** Joining one more run adds a separator and the run. */
  lemma JoinSnoc(segs: seq<string>, w: string, sep: char)
    requires |segs| >= 1
    ensures Join(segs + [w], sep) == Join(segs, sep) + [sep] + w
  {
    assert (segs + [w])[..|segs|] == segs;
  }

  /** Growing the last run grows the joined string at its end. */
  lemma JoinGrowLast(segs: seq<string>, c: char, sep: char)
    requires |segs| >= 1
    ensures Join(segs[..|segs| - 1] + [segs[|segs| - 1] + [c]], sep) == Join(segs, sep) + [c]
  {
    var n := |segs|;
    var init := segs[..n - 1];
    if n == 1 {
      assert init + [segs[0] + [c]] == [segs[0] + [c]];
    } else {
      JoinSnoc(init, segs[n - 1] + [c], sep);
      JoinSnoc(init, segs[n - 1], sep);
      assert init + [segs[n - 1]] == segs;
    }
  }

  /** One step of JoinSplit: if joining undoes splitting for all but the
      last character, it does for the whole string. */
  lemma JoinSplitStep(s: string, sep: char)
    requires |s| > 0
    requires Join(Split(s[..|s| - 1], sep), sep) == s[..|s| - 1]
    ensures Join(Split(s, sep), sep) == s
  {
    var t := s[..|s| - 1];
    var c := s[|s| - 1];
    var init := Split(t, sep);
    assert t + [c] == s;
    if c == sep {
      assert Split(s, sep) == init + [""];
      JoinSnoc(init, "", sep);
    } else {
      assert Split(s, sep) == init[..|init| - 1] + [init[|init| - 1] + [c]];
      JoinGrowLast(init, c, sep);
    }
  }

  /** Joining undoes splitting. */
  lemma {:induction false} JoinSplit(s: string, sep: char)
    ensures Join(Split(s, sep), sep) == s
    decreases |s|
  {
    if |s| > 0 {
      JoinSplit(s[..|s| - 1], sep);
      JoinSplitStep(s, sep);
    }
  }

  /** Joining is a left fold as much as a right one. */
  lemma {:induction false} JoinCons(s: string, rest: seq<string>, sep: char)
    requires |rest| >= 1
    ensures Join([s] + rest, sep) == s + [sep] + Join(rest, sep)
    decreases |rest|
  {
    if |rest| > 1 {
      var init := rest[..|rest| - 1];
      JoinCons(s, init, sep);
      assert ([s] + rest)[..|rest|] == [s] + init;
    }
  }

  /** Closed runs keep their content as the string grows: the runs of a
      prefix, all but its last, are runs of the whole string. */
  lemma {:induction false} SplitPrefix(s: string, k: nat, sep: char)
    requires k <= |s|
    ensures |Split(s[..k], sep)| <= |Split(s, sep)|
    ensures forall i :: 0 <= i < |Split(s[..k], sep)| - 1 ==> Split(s[..k], sep)[i] == Split(s, sep)[i]
    decreases |s| - k
  {
    if k < |s| {
      SplitPrefix(s, k + 1, sep);
      assert s[..k + 1][..k] == s[..k];
    } else {
      assert s[..k] == s;
    }
  }

  function DigitChar(d: nat): (c: char)
    requires d < 10
    ensures '0' <= c <= '9'
  {
    ('0' as int + d) as char
  }

  /** Decimal rendering of a natural number, most significant digit first,
      without leading zeros: what `%d` prints for a non-negative value. */
  function Decimal(n: nat): (s: string)
    ensures 1 <= |s|
    ensures forall i :: 0 <= i < |s| ==> '0' <= s[i] <= '9'
    ensures |s| == 1 <==> n < 10
    ensures s[0] == '0' <==> n == 0
    ensures |s| > 1 ==> s[0] != '0'
  {
    if n < 10 then [DigitChar(n)]
    else Decimal(n / 10) + [DigitChar(n % 10)]
  }

  /** The number a string of decimal digits denotes. */
  function DecimalValue(s: string): nat
  {
    if |s| == 0 then 0
    else
      var d := s[|s| - 1] as int - '0' as int;
      DecimalValue(s[..|s| - 1]) * 10 + (if 0 <= d < 10 then d else 0)
  }

  /** Reading a rendered number gives the number back. */
  lemma {:induction false} DecimalRoundTrip(n: nat)
    ensures DecimalValue(Decimal(n)) == n
  {
    if n >= 10 {
      DecimalRoundTrip(n / 10);
      assert (Decimal(n / 10) + [DigitChar(n % 10)])[..|Decimal(n / 10)|] == Decimal(n / 10);
    }
  }
}
