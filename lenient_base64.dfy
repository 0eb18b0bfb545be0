/**
 * `atob`, the decoder the browser code calls: the forgiving-base64 decode of
 * the WHATWG Infra standard, which drops ASCII whitespace and accepts missing
 * padding, reduced to the strict decoder of the Base64 module. It gives the
 * strict result on every well-formed text and accepts a few texts that are
 * not well-formed. (The backend's `base64.b64decode(v, validate=True)` is
 * strict since Python 3.11 and is `Base64.Decode` itself.)
 */
module LenientBase64 {
  import opened Wrappers
  import opened Base64

  predicate AllAlphabet(d: string) {
    forall i | 0 <= i < |d| :: IsAlphabet(d[i])
  }

  /** Data characters padded with '=' up to a whole group of four. */
  function Repad(d: string): string {
    if |d| % 4 == 2 then d + "==" else if |d| % 4 == 3 then d + "=" else d
  }

  /** Repadded data characters are well-formed and stand for three bytes per four characters, rounded down. */
  lemma RepadWellFormed(d: string)
    requires AllAlphabet(d) && |d| % 4 != 1
    ensures WellFormed(Repad(d))
    ensures Decode(Repad(d)).Some? && |Decode(Repad(d)).value| == |d| * 3 / 4
  {
    var s := Repad(d);
    if |d| % 4 == 0 {
      assert s == d;
      assert PadCount(s) == 0;
    } else if |d| % 4 == 2 {
      assert PadCount(s) == 2;
    } else {
      assert PadCount(s) == 1;
    }
    assert forall i | 0 <= i < |s| - PadCount(s) :: s[i] == d[i];
    DecodeAcceptsWellFormed(s);
  }

  /** The data characters of a well-formed text, padded again, are the text. */
  lemma WellFormedIsRepadded(s: string)
    requires WellFormed(s)
    ensures AllAlphabet(s[..|s| - PadCount(s)]) && (|s| - PadCount(s)) % 4 != 1
    ensures Repad(s[..|s| - PadCount(s)]) == s
  {
    var p := PadCount(s);
    var d := s[..|s| - p];
    forall i | 0 <= i < |d| ensures IsAlphabet(d[i]) {
      assert d[i] == s[i];
    }
    assert s == d + s[|s| - p..];
    if p == 2 {
      assert s[|s| - p..] == "==";
    } else if p == 1 {
      assert s[|s| - p..] == "=";
    } else {
      assert s[|s| - p..] == "";
    }
  }

  /*** atob: forgiving-base64 decode ***/

  predicate IsAsciiWhitespace(c: char) {
    c == '\t' || c == '\n' || c == '\U{000C}' || c == '\r' || c == ' '
  }

  /** Step 1: remove all ASCII whitespace. */
  function StripWhitespace(s: string): (r: string)
    ensures |r| <= |s| && forall i | 0 <= i < |r| :: !IsAsciiWhitespace(r[i])
    ensures (forall i | 0 <= i < |s| :: !IsAsciiWhitespace(s[i])) ==> r == s
    decreases |s|
  {
    if |s| == 0 then ""
    else if IsAsciiWhitespace(s[|s| - 1]) then StripWhitespace(s[..|s| - 1])
    else StripWhitespace(s[..|s| - 1]) + [s[|s| - 1]]
  }

  /** A single character survives step 1 exactly when it is not whitespace. */
  lemma StripWhitespaceChar(c: char)
    ensures StripWhitespace([c]) == if IsAsciiWhitespace(c) then "" else [c]
  {
    assert [c][..0] == "";
  }

  /** Step 1 works character by character: stripping a concatenation strips each part. */
  lemma {:induction false} StripWhitespaceConcat(a: string, b: string)
    ensures StripWhitespace(a + b) == StripWhitespace(a) + StripWhitespace(b)
    decreases |b|
  {
    if |b| == 0 {
      assert a + b == a;
    } else {
      var b' := b[..|b| - 1];
      assert (a + b)[..|a + b| - 1] == a + b';
      assert (a + b)[|a + b| - 1] == b[|b| - 1];
      StripWhitespaceConcat(a, b');
    }
  }

  /** Step 2: when the length is a multiple of four, drop one or two trailing '='. */
  function DropPadding(d: string): (r: string)
    ensures |r| <= |d| && r == d[..|r|]
  {
    if |d| % 4 == 0 && |d| >= 2 && d[|d| - 2] == PAD && d[|d| - 1] == PAD then d[..|d| - 2]
    else if |d| % 4 == 0 && |d| >= 1 && d[|d| - 1] == PAD then d[..|d| - 1]
    else d
  }

  /**
   * `atob`: fails when what is left leaves one character over a multiple of
   * four or holds a character outside the alphabet; the leftover bits of a
   * short last group are dropped.
   */
  function ForgivingDecode(s: string): (r: Option<seq<Byte>>)
    ensures r.Some? ==> |r.value| == |DropPadding(StripWhitespace(s))| * 3 / 4
  {
    var d := DropPadding(StripWhitespace(s));
    if |d| % 4 == 1 || !AllAlphabet(d) then None
    else
      RepadWellFormed(d);
      Decode(Repad(d))
  }

  /** On well-formed text `atob` is the strict decoder. */
  lemma ForgivingAgrees(s: string)
    ensures WellFormed(s) ==> ForgivingDecode(s) == Decode(s)
  {
    if WellFormed(s) {
      WellFormedForgiven(s);
      WellFormedIsRepadded(s);
    }
  }

  /** A well-formed text has no whitespace, and step 2 drops exactly its padding. */
  lemma WellFormedForgiven(s: string)
    ensures WellFormed(s) ==>
      && DropPadding(StripWhitespace(s)) == s[..|s| - PadCount(s)]
      && Repad(s[..|s| - PadCount(s)]) == s
  {
    if WellFormed(s) {
      WellFormedIsRepadded(s);
      WellFormedHasNoWhitespace(s);
      assert StripWhitespace(s) == s;
      WellFormedDropsPadding(s);
    }
  }

  lemma WellFormedHasNoWhitespace(s: string)
    requires WellFormed(s)
    ensures forall i | 0 <= i < |s| :: !IsAsciiWhitespace(s[i])
  {
    forall i | 0 <= i < |s|
      ensures !IsAsciiWhitespace(s[i])
    {
      if i < |s| - PadCount(s) {
        assert IsAlphabet(s[i]);
      }
    }
  }

  lemma WellFormedDropsPadding(s: string)
    requires WellFormed(s)
    ensures DropPadding(s) == s[..|s| - PadCount(s)]
  {
    if PadCount(s) == 0 && |s| > 0 {
      assert IsAlphabet(s[|s| - 1]);
    }
    if PadCount(s) == 1 {
      assert IsAlphabet(s[|s| - 2]);
    }
  }

  /** What `atob` lets through, stated on its own. */
  predicate AtobAccepts(s: string) {
    var d := DropPadding(StripWhitespace(s));
    |d| % 4 != 1 && AllAlphabet(d)
  }

  lemma ForgivingDecodeAccepts(s: string)
    ensures ForgivingDecode(s).Some? <==> AtobAccepts(s)
  {
    var d := DropPadding(StripWhitespace(s));
    if AtobAccepts(s) {
      RepadWellFormed(d);
    }
  }

  /** `atob` takes unpadded text. */
  lemma AtobTakesUnpadded()
    ensures ForgivingDecode("AAA") == Some([0, 0]) && !WellFormed("AAA")
  {
    assert StripWhitespace("AAA") == "AAA";
    assert Repad("AAA") == "AAA=";
    assert Decode("AAA=") == Some([0, 0]);
  }

  /** `atob` skips whitespace inside the text. */
  lemma AtobSkipsSpaces()
    ensures ForgivingDecode("AA AA") == Some([0, 0, 0])
  {
    InnerSpaceStripped();
    assert DropPadding("AAAA") == "AAAA";
    assert Repad("AAAA") == "AAAA";
    AllZeroGroup();
  }

  lemma InnerSpaceStripped()
    ensures StripWhitespace("AA AA") == "AAAA"
  {
    var s := "AA AA";
    assert s[..4] == "AA A" && s[4] == 'A';
    assert "AA A"[..3] == "AA " && "AA A"[3] == 'A';
    assert "AA "[..2] == "AA" && "AA "[2] == ' ';
    assert StripWhitespace("AA") == "AA";
  }

  lemma AllZeroGroup()
    ensures Decode("AAAA") == Some([0, 0, 0])
  {
    assert Sextet('A') == 0;
    assert DecodeGroup("AAAA") == Some([0, 0, 0]);
  }

  /** `atob` refuses a character left over a whole group, and a stray '=' after one. */
  lemma AtobRefusesLeftovers()
    ensures ForgivingDecode("AAAAA") == None
    ensures ForgivingDecode("AAAA=") == None
  {
    assert StripWhitespace("AAAAA") == "AAAAA";
    assert StripWhitespace("AAAA=") == "AAAA=";
  }
}
