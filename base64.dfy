/**
 * Standard padded base64 (RFC 4648, section 4): the encoder behind
 * `uint8ArrayToBase64` (btoa) and Python's `base64.b64encode`, and the strict
 * decoder: Python's `base64.b64decode(v, validate=True)`, and what the
 * lenient `atob` of the LenientBase64 module reduces to.
 *
 * The decoder ignores the unused low bits of the last character before the
 * padding, as atob and binascii do, so a string can decode without being the
 * encoding of what it decodes to; `Canonical` names the strings that are.
 */
module Base64 {
  import opened Wrappers

  /** An octet, as held in a Uint8Array or a Python bytes object. */
  newtype Byte = b: int | 0 <= b < 256

  const PAD: char := '='

  /** The character for a 6-bit value, per Table 1 of RFC 4648. */
  function CharOf(v: int): (c: char)
    requires 0 <= v < 64
    ensures IndexOf(c) == Some(v)
  {
    if v < 26 then (65 + v) as char
    else if v < 52 then (97 + v - 26) as char
    else if v < 62 then (48 + v - 52) as char
    else if v == 62 then '+'
    else '/'
  }

  /** The 6-bit value of an alphabet character; None for anything else, the pad included. */
  function IndexOf(c: char): (r: Option<int>)
    ensures r.Some? ==> 0 <= r.value < 64
  {
    if 'A' <= c <= 'Z' then Some(c as int - 65)
    else if 'a' <= c <= 'z' then Some(c as int - 97 + 26)
    else if '0' <= c <= '9' then Some(c as int - 48 + 52)
    else if c == '+' then Some(62)
    else if c == '/' then Some(63)
    else None
  }

  predicate IsAlphabet(c: char) {
    IndexOf(c).Some?
  }

  function Sextet(c: char): int
    requires IsAlphabet(c)
  {
    IndexOf(c).value
  }

  lemma CharOfSextet(c: char)
    requires IsAlphabet(c)
    ensures CharOf(Sextet(c)) == c
  {
  }

  /*** Encoding ***/

  /** Three bytes as four characters. */
  function EncodeGroup(b0: Byte, b1: Byte, b2: Byte): string {
    [ CharOf(b0 as int / 4),
      CharOf(b0 as int % 4 * 16 + b1 as int / 16),
      CharOf(b1 as int % 16 * 4 + b2 as int / 64),
      CharOf(b2 as int % 64) ]
  }

  /** A final single byte: two characters and two pads. */
  function EncodeLast1(b0: Byte): string {
    [CharOf(b0 as int / 4), CharOf(b0 as int % 4 * 16), PAD, PAD]
  }

  /** A final pair of bytes: three characters and one pad. */
  function EncodeLast2(b0: Byte, b1: Byte): string {
    [CharOf(b0 as int / 4), CharOf(b0 as int % 4 * 16 + b1 as int / 16), CharOf(b1 as int % 16 * 4), PAD]
  }

  /** btoa of the bytes' Latin-1 string, or b64encode: 4 characters per started group of 3 bytes. */
  function Encode(bs: seq<Byte>): (s: string)
    ensures |s| == 4 * ((|bs| + 2) / 3)
    decreases |bs|
  {
    if |bs| == 0 then ""
    else if |bs| == 1 then EncodeLast1(bs[0])
    else if |bs| == 2 then EncodeLast2(bs[0], bs[1])
    else EncodeGroup(bs[0], bs[1], bs[2]) + Encode(bs[3..])
  }

  /*** Decoding ***/

  /** Four alphabet characters as three bytes; None if any is outside the alphabet. */
  function DecodeGroup(q: string): (r: Option<seq<Byte>>)
    requires |q| == 4
  {
    if IsAlphabet(q[0]) && IsAlphabet(q[1]) && IsAlphabet(q[2]) && IsAlphabet(q[3]) then
      var i0, i1, i2, i3 := Sextet(q[0]), Sextet(q[1]), Sextet(q[2]), Sextet(q[3]);
      Some([(i0 * 4 + i1 / 16) as Byte, (i1 % 16 * 16 + i2 / 4) as Byte, (i2 % 4 * 64 + i3) as Byte])
    else None
  }

  /** The last four characters, which may end in one or two pads. */
  function DecodeLast(q: string): (r: Option<seq<Byte>>)
    requires |q| == 4
  {
    if q[3] != PAD then DecodeGroup(q)
    else if q[2] != PAD then
      if IsAlphabet(q[0]) && IsAlphabet(q[1]) && IsAlphabet(q[2]) then
        var i0, i1, i2 := Sextet(q[0]), Sextet(q[1]), Sextet(q[2]);
        Some([(i0 * 4 + i1 / 16) as Byte, (i1 % 16 * 16 + i2 / 4) as Byte])
      else None
    else if IsAlphabet(q[0]) && IsAlphabet(q[1]) then
      Some([(Sextet(q[0]) * 4 + Sextet(q[1]) / 16) as Byte])
    else None
  }

  /** Number of trailing pads that count as padding (at most two). */
  function PadCount(s: string): nat {
    if |s| >= 1 && s[|s| - 1] == PAD then
      if |s| >= 2 && s[|s| - 2] == PAD then 2 else 1
    else 0
  }

  /** The number of bytes a well-formed string stands for. */
  function DecodedLength(s: string): int {
    |s| / 4 * 3 - PadCount(s)
  }

  /** Strict decoding: None on a length that is not a multiple of 4, a character outside the alphabet, or padding anywhere but at the end. */
  function Decode(s: string): (r: Option<seq<Byte>>)
    ensures r.Some? ==> |s| % 4 == 0 && |r.value| == DecodedLength(s)
    decreases |s|
  {
    if |s| == 0 then Some([])
    else if |s| < 4 then None
    else if |s| == 4 then DecodeLast(s)
    else
      match DecodeGroup(s[..4])
      case None => None
      case Some(head) =>
        match Decode(s[4..])
        case None => None
        case Some(tail) => Some(head + tail)
  }

  /*** Reference definitions ***/

  /** Well-formed padded base64, stated without reference to the decoder. */
  predicate WellFormed(s: string) {
    && |s| % 4 == 0
    && forall i | 0 <= i < |s| - PadCount(s) :: IsAlphabet(s[i])
  }

  /** Well-formed, and the bits the pads make unused are zero: what the encoder produces. */
  predicate Canonical(s: string) {
    && WellFormed(s)
    && (PadCount(s) == 1 ==> Sextet(s[|s| - 2]) % 4 == 0)
    && (PadCount(s) == 2 ==> Sextet(s[|s| - 3]) % 16 == 0)
  }

  /*** Laws ***/

  lemma GroupRoundTrip(b0: Byte, b1: Byte, b2: Byte)
    ensures DecodeLast(EncodeGroup(b0, b1, b2)) == Some([b0, b1, b2])
    ensures DecodeGroup(EncodeGroup(b0, b1, b2)) == Some([b0, b1, b2])
  {
    var x0, x1, x2 := b0 as int, b1 as int, b2 as int;
    var i0, i1, i2, i3 := x0 / 4, x0 % 4 * 16 + x1 / 16, x1 % 16 * 4 + x2 / 64, x2 % 64;
    assert i1 / 16 == x0 % 4 && i1 % 16 == x1 / 16;
    assert i2 / 4 == x1 % 16 && i2 % 4 == x2 / 64;
  }

  lemma Last1RoundTrip(b0: Byte)
    ensures DecodeLast(EncodeLast1(b0)) == Some([b0])
  {
    var x0 := b0 as int;
    assert (x0 % 4 * 16) / 16 == x0 % 4;
  }

  lemma Last2RoundTrip(b0: Byte, b1: Byte)
    ensures DecodeLast(EncodeLast2(b0, b1)) == Some([b0, b1])
  {
    var x0, x1 := b0 as int, b1 as int;
    var i1, i2 := x0 % 4 * 16 + x1 / 16, x1 % 16 * 4;
    assert i1 / 16 == x0 % 4 && i1 % 16 == x1 / 16;
    assert i2 / 4 == x1 % 16;
  }

  /** Decoding a full group followed by more groups. */
  lemma DecodeConcat(g: string, t: string)
    requires |g| == 4 && DecodeGroup(g).Some? && |t| >= 4
    ensures Decode(g + t) ==
      if Decode(t).Some? then Some(DecodeGroup(g).value + Decode(t).value) else None
  {
    var s := g + t;
    assert s[..4] == g && s[4..] == t;
  }

  lemma DecodeEncode1(bs: seq<Byte>)
    requires |bs| == 1
    ensures Decode(Encode(bs)) == Some(bs)
  {
    Last1RoundTrip(bs[0]);
    assert Encode(bs) == EncodeLast1(bs[0]);
    assert bs == [bs[0]];
  }

  lemma DecodeEncode2(bs: seq<Byte>)
    requires |bs| == 2
    ensures Decode(Encode(bs)) == Some(bs)
  {
    Last2RoundTrip(bs[0], bs[1]);
    assert Encode(bs) == EncodeLast2(bs[0], bs[1]);
    assert bs == [bs[0], bs[1]];
  }

  lemma DecodeEncode3(bs: seq<Byte>)
    requires |bs| == 3
    ensures Decode(Encode(bs)) == Some(bs)
  {
    var g := EncodeGroup(bs[0], bs[1], bs[2]);
    GroupRoundTrip(bs[0], bs[1], bs[2]);
    assert Encode(bs) == g + Encode([]) == g;
    assert Decode(g) == DecodeLast(g);
    assert bs == [bs[0], bs[1], bs[2]];
  }

  /** Decoding an encoding gives back the bytes (the codec's round trip). */
  lemma {:induction false} DecodeEncode(bs: seq<Byte>)
    ensures Decode(Encode(bs)) == Some(bs)
    decreases |bs|
  {
    if |bs| == 1 {
      DecodeEncode1(bs);
    } else if |bs| == 2 {
      DecodeEncode2(bs);
    } else if |bs| == 3 {
      DecodeEncode3(bs);
    } else if |bs| > 3 {
      DecodeEncode(bs[3..]);
      DecodeEncodeStep(bs);
    }
  }

  /** The round trip extends from the tail to one more leading group. */
  lemma DecodeEncodeStep(bs: seq<Byte>)
    requires |bs| > 3 && Decode(Encode(bs[3..])) == Some(bs[3..])
    ensures Decode(Encode(bs)) == Some(bs)
  {
    var g := EncodeGroup(bs[0], bs[1], bs[2]);
    var t := Encode(bs[3..]);
    assert Encode(bs) == g + t;
    GroupRoundTrip(bs[0], bs[1], bs[2]);
    DecodeConcat(g, t);
    FirstThree(bs);
  }

  lemma FirstThree(bs: seq<Byte>)
    requires |bs| >= 3
    ensures bs == [bs[0], bs[1], bs[2]] + bs[3..]
  {
    assert bs[..3] == [bs[0], bs[1], bs[2]];
    assert bs == bs[..3] + bs[3..];
  }

  /** A string longer than one group is well formed exactly when its first group is all alphabet and the rest is well formed. */
  lemma WellFormedSplit(s: string)
    requires |s| > 4 && |s| % 4 == 0
    ensures PadCount(s) == PadCount(s[4..])
    ensures WellFormed(s) <==>
      (IsAlphabet(s[0]) && IsAlphabet(s[1]) && IsAlphabet(s[2]) && IsAlphabet(s[3]) && WellFormed(s[4..]))
  {
    var t := s[4..];
    assert PadCount(s) == PadCount(t) by {
      assert s[|s| - 1] == t[|t| - 1] && s[|s| - 2] == t[|t| - 2];
    }
    if WellFormed(s) {
      assert |t| >= 4 && |t| - PadCount(t) >= 2;
      forall i | 0 <= i < |t| - PadCount(t) ensures IsAlphabet(t[i]) {
        assert t[i] == s[i + 4];
      }
    }
    if IsAlphabet(s[0]) && IsAlphabet(s[1]) && IsAlphabet(s[2]) && IsAlphabet(s[3]) && WellFormed(t) {
      forall i | 0 <= i < |s| - PadCount(s) ensures IsAlphabet(s[i]) {
        if i >= 4 { assert s[i] == t[i - 4]; }
      }
    }
  }

  /** The strict decoder accepts exactly the well-formed strings. */
  lemma {:induction false} DecodeAcceptsWellFormed(s: string)
    ensures Decode(s).Some? <==> WellFormed(s)
    decreases |s|
  {
    if |s| == 4 {
      assert PadCount(s) == 2 ==> s[3] == PAD && s[2] == PAD;
      if !IsAlphabet(s[0]) {
        assert !WellFormed(s) by { assert 0 < |s| - PadCount(s); }
      } else if !IsAlphabet(s[1]) {
        assert !WellFormed(s) by { assert 1 < |s| - PadCount(s); }
      } else if s[2] == PAD && s[3] != PAD {
        assert !WellFormed(s) by { assert 2 < |s| - PadCount(s); }
      }
    } else if |s| > 4 {
      if |s| % 4 == 0 {
        WellFormedSplit(s);
      }
      DecodeAcceptsWellFormed(s[4..]);
    }
  }

  lemma CanonicalLast1(bs: seq<Byte>)
    requires |bs| == 1
    ensures Canonical(Encode(bs))
  {
    var s := Encode(bs);
    assert s == EncodeLast1(bs[0]);
    assert PadCount(s) == 2;
    assert Sextet(s[1]) == bs[0] as int % 4 * 16;
  }

  lemma CanonicalLast2(bs: seq<Byte>)
    requires |bs| == 2
    ensures Canonical(Encode(bs))
  {
    var s := Encode(bs);
    assert s == EncodeLast2(bs[0], bs[1]);
    assert PadCount(s) == 1;
    assert Sextet(s[2]) == bs[1] as int % 16 * 4;
  }

  lemma CanonicalGroup(bs: seq<Byte>)
    requires |bs| == 3
    ensures Canonical(Encode(bs))
  {
    var s := Encode(bs);
    assert s == EncodeGroup(bs[0], bs[1], bs[2]) + Encode([]);
    assert PadCount(s) == 0;
  }

  lemma {:induction false} EncodeIsCanonical(bs: seq<Byte>)
    ensures Canonical(Encode(bs))
    decreases |bs|
  {
    if |bs| == 1 {
      CanonicalLast1(bs);
    } else if |bs| == 2 {
      CanonicalLast2(bs);
    } else if |bs| == 3 {
      CanonicalGroup(bs);
    } else if |bs| > 3 {
      EncodeIsCanonical(bs[3..]);
      CanonicalStep(bs);
    }
  }

  /** A canonical tail stays canonical behind one more full group. */
  lemma CanonicalStep(bs: seq<Byte>)
    requires |bs| > 3 && Canonical(Encode(bs[3..]))
    ensures Canonical(Encode(bs))
  {
    var g := EncodeGroup(bs[0], bs[1], bs[2]);
    var t := Encode(bs[3..]);
    assert Encode(bs) == g + t;
    NonEmptyEncoding(bs[3..]);
    CanonicalPrepend(g, t);
  }

  lemma NonEmptyEncoding(bs: seq<Byte>)
    requires |bs| > 0
    ensures |Encode(bs)| >= 4
  {
    var n := (|bs| + 2) / 3;
    assert n >= 1;
    assert |Encode(bs)| == 4 * n;
  }

  /** Four alphabet characters in front of a canonical text of at least one group keep it canonical. */
  lemma CanonicalPrepend(g: string, t: string)
    requires |g| == 4 && IsAlphabet(g[0]) && IsAlphabet(g[1]) && IsAlphabet(g[2]) && IsAlphabet(g[3])
    requires Canonical(t) && |t| >= 4
    ensures Canonical(g + t)
  {
    var s := g + t;
    assert s[4..] == t;
    assert s[0] == g[0] && s[1] == g[1] && s[2] == g[2] && s[3] == g[3];
    WellFormedSplit(s);
    assert s[|s| - 2] == t[|t| - 2] && s[|s| - 3] == t[|t| - 3];
  }

  lemma GroupReencodes(q: string)
    requires |q| == 4 && IsAlphabet(q[0]) && IsAlphabet(q[1]) && IsAlphabet(q[2]) && IsAlphabet(q[3])
    ensures DecodeGroup(q).Some? && Encode(DecodeGroup(q).value) == q
  {
    var i0, i1, i2, i3 := Sextet(q[0]), Sextet(q[1]), Sextet(q[2]), Sextet(q[3]);
    CharOfSextet(q[0]);
    CharOfSextet(q[1]);
    CharOfSextet(q[2]);
    CharOfSextet(q[3]);
    var x0, x1, x2 := i0 * 4 + i1 / 16, i1 % 16 * 16 + i2 / 4, i2 % 4 * 64 + i3;
    assert x0 / 4 == i0 && x0 % 4 == i1 / 16;
    assert x1 / 16 == i1 % 16 && x1 % 16 == i2 / 4;
    assert x2 / 64 == i2 % 4 && x2 % 64 == i3;
    var bs := DecodeGroup(q).value;
    assert bs[0] as int == x0 && bs[1] as int == x1 && bs[2] as int == x2;
    assert EncodeGroup(bs[0], bs[1], bs[2]) == [CharOf(i0), CharOf(i1), CharOf(i2), CharOf(i3)];
    assert Encode(bs) == EncodeGroup(bs[0], bs[1], bs[2]) + Encode([]);
  }

  lemma OnePadReencodes(q: string)
    requires |q| == 4 && IsAlphabet(q[0]) && IsAlphabet(q[1]) && IsAlphabet(q[2]) && q[3] == PAD
    requires Sextet(q[2]) % 4 == 0
    ensures DecodeLast(q).Some? && Encode(DecodeLast(q).value) == q
  {
    var i0, i1, i2 := Sextet(q[0]), Sextet(q[1]), Sextet(q[2]);
    CharOfSextet(q[0]);
    CharOfSextet(q[1]);
    CharOfSextet(q[2]);
    TwoBytesSextets(i0, i1, i2);
    var bs := DecodeLast(q).value;
    assert bs == [(i0 * 4 + i1 / 16) as Byte, (i1 % 16 * 16 + i2 / 4) as Byte];
    assert Encode(bs) == EncodeLast2(bs[0], bs[1]);
  }

  /** Splitting the two bytes that three sextets stand for gives the sextets back when the last one's low bits are zero. */
  lemma TwoBytesSextets(i0: int, i1: int, i2: int)
    requires 0 <= i0 < 64 && 0 <= i1 < 64 && 0 <= i2 < 64 && i2 % 4 == 0
    ensures var x0, x1 := i0 * 4 + i1 / 16, i1 % 16 * 16 + i2 / 4;
      && 0 <= x0 < 256 && 0 <= x1 < 256
      && x0 / 4 == i0 && x0 % 4 * 16 + x1 / 16 == i1 && x1 % 16 * 4 == i2
  {
  }

  lemma TwoPadsReencode(q: string)
    requires |q| == 4 && IsAlphabet(q[0]) && IsAlphabet(q[1]) && q[2] == PAD && q[3] == PAD
    requires Sextet(q[1]) % 16 == 0
    ensures DecodeLast(q).Some? && Encode(DecodeLast(q).value) == q
  {
    var i0, i1 := Sextet(q[0]), Sextet(q[1]);
    CharOfSextet(q[0]);
    CharOfSextet(q[1]);
    OneByteSextets(i0, i1);
    var bs := DecodeLast(q).value;
    assert bs == [(i0 * 4 + i1 / 16) as Byte];
    assert Encode(bs) == EncodeLast1(bs[0]);
  }

  /** Splitting the byte that two sextets stand for gives the sextets back when the second one's low bits are zero. */
  lemma OneByteSextets(i0: int, i1: int)
    requires 0 <= i0 < 64 && 0 <= i1 < 64 && i1 % 16 == 0
    ensures var x0 := i0 * 4 + i1 / 16;
      0 <= x0 < 256 && x0 / 4 == i0 && x0 % 4 * 16 == i1
  {
  }

  lemma CanonicalLastRoundTrip(q: string)
    requires |q| == 4 && Canonical(q)
    ensures DecodeLast(q).Some? && Encode(DecodeLast(q).value) == q
  {
    assert IsAlphabet(q[0]) && IsAlphabet(q[1]) by { assert PadCount(q) <= 2; }
    if q[3] != PAD {
      assert PadCount(q) == 0 && IsAlphabet(q[2]) && IsAlphabet(q[3]);
      GroupReencodes(q);
    } else if q[2] != PAD {
      assert PadCount(q) == 1 && IsAlphabet(q[2]);
      OnePadReencodes(q);
    } else {
      assert PadCount(q) == 2;
      TwoPadsReencode(q);
    }
  }

  /** Encoding what a canonical string decodes to gives the string back. */
  lemma {:induction false} EncodeDecode(s: string)
    requires Canonical(s)
    ensures Decode(s).Some? && Encode(Decode(s).value) == s
    decreases |s|
  {
    if |s| == 4 {
      CanonicalLastRoundTrip(s);
    } else if |s| > 4 {
      var g, t := s[..4], s[4..];
      CanonicalSplit(s);
      EncodeDecode(t);
      CanonicalLastRoundTrip(g);
      GroupIsLast(g);
      DecodeConcat(g, t);
      EncodeConcat(DecodeGroup(g).value, Decode(t).value);
    }
  }

  /** A canonical text of more than one group is a full group of alphabet characters and a canonical rest. */
  lemma CanonicalSplit(s: string)
    requires Canonical(s) && |s| > 4
    ensures s == s[..4] + s[4..] && |s[4..]| >= 4
    ensures Canonical(s[..4]) && IsAlphabet(s[..4][3]) && Canonical(s[4..])
  {
    var g, t := s[..4], s[4..];
    WellFormedSplit(s);
    assert s[|s| - 2] == t[|t| - 2] && s[|s| - 3] == t[|t| - 3];
    assert g[3] == s[3];
    assert PadCount(g) == 0;
    forall i | 0 <= i < 4 ensures IsAlphabet(g[i]) {
      assert g[i] == s[i];
    }
  }

  /** The encoding of three bytes followed by more is the first group's encoding followed by the rest's. */
  lemma EncodeConcat(head: seq<Byte>, tail: seq<Byte>)
    requires |head| == 3 && |tail| > 0
    ensures Encode(head + tail) == Encode(head) + Encode(tail)
  {
    var bs := head + tail;
    assert Encode(bs) == EncodeGroup(bs[0], bs[1], bs[2]) + Encode(bs[3..]);
    assert bs[3..] == tail;
    assert head == [bs[0], bs[1], bs[2]];
    OneGroupEncoding(bs[0], bs[1], bs[2]);
  }

  lemma GroupIsLast(g: string)
    requires |g| == 4 && IsAlphabet(g[3])
    ensures DecodeLast(g) == DecodeGroup(g)
  {
  }

  /** A decodable string is given back by the encoder exactly when it is canonical. */
  lemma ReencodeExactlyCanonical(s: string)
    requires Decode(s).Some?
    ensures Encode(Decode(s).value) == s <==> Canonical(s)
  {
    if Canonical(s) {
      EncodeDecode(s);
    } else {
      EncodeIsCanonical(Decode(s).value);
    }
  }

  /** The known vector [1, 2, 3, 250, 255] encodes to "AQID+v8=" and decodes back. */
  lemma KnownVector()
    ensures Encode([1, 2, 3, 250, 255]) == "AQID+v8="
    ensures Decode("AQID+v8=") == Some([1, 2, 3, 250, 255])
  {
    var bs: seq<Byte> := [1, 2, 3, 250, 255];
    assert bs[3..] == [250, 255];
    assert Encode(bs) == EncodeGroup(1, 2, 3) + EncodeLast2(250, 255);
    DecodeEncode(bs);
  }

  /** "AB==" is accepted although "AA==" is the encoding of the byte it stands for. */
  lemma NonCanonicalAccepted()
    ensures Decode("AB==") == Some([0])
    ensures Encode([0]) == "AA=="
    ensures !Canonical("AB==")
  {
  }

  lemma OneGroupEncoding(b0: Byte, b1: Byte, b2: Byte)
    ensures Encode([b0, b1, b2]) == EncodeGroup(b0, b1, b2)
  {
    var bs := [b0, b1, b2];
    assert bs[3..] == [];
    assert Encode(bs) == EncodeGroup(b0, b1, b2) + Encode([]);
  }

  /** The encoder only emits alphabet characters and pads, so its output contains no '#' and fits a URL fragment. */
  lemma EncodeAlphabet(bs: seq<Byte>)
    ensures forall i | 0 <= i < |Encode(bs)| :: IsAlphabet(Encode(bs)[i]) || Encode(bs)[i] == PAD
  {
    EncodeIsCanonical(bs);
  }
}
