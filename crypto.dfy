/**
 * The browser side of the cipher and of key transport (frontend/src/lib/crypto.ts).
 * AES-GCM, the TextEncoder/TextDecoder pair and the random source are Web
 * Crypto and browser calls: AES-GCM and UTF-8 are parameters whose laws are
 * stated as predicates and used as hypotheses, and each random draw is an input.
 * What is modelled is how the file wraps those calls, in particular how every
 * failure collapses to one message.
 */
module Crypto {
  import opened Wrappers
  import opened Base64
  import opened LenientBase64

  const INVALID_DATA_FORMAT: string := "Invalid data format."
  const INVALID_ENCRYPTION_KEY: string := "Invalid encryption key."
  const UNABLE_TO_DECRYPT: string := "Unable to decrypt the secret."

  /** The nonce length `getRandomValues(new Uint8Array(12))` fills: 96 bits (NIST SP 800-38D, section 5.2.1.1). */
  const IV_LEN: nat := 12

  /** The key length `generateKey({ name: "AES-GCM", length: 256 })` produces, in bytes. */
  const KEY_LEN: nat := 32

  type Nonce = s: seq<Byte> | |s| == IV_LEN witness [0, 0, 0, 0, 0, 0, 0, 0, 0, 0, 0, 0]

  type KeyMaterial = s: seq<Byte> | |s| == KEY_LEN
    witness [0, 0, 0, 0, 0, 0, 0, 0, 0, 0, 0, 0, 0, 0, 0, 0, 0, 0, 0, 0, 0, 0, 0, 0, 0, 0, 0, 0, 0, 0, 0, 0]

  /** An extractable AES-GCM CryptoKey; `raw` is what `exportKey("raw", key)` gives. */
  datatype CryptoKey = CryptoKey(raw: seq<Byte>)

  /** Raw AES import accepts 128-, 192- and 256-bit keys; the requested length is not checked on import. */
  predicate AesKeySize(n: int) {
    n == 16 || n == 24 || n == 32
  }

  /**
   * AES-GCM as two functions of (key bytes, iv, data): `seal` gives the
   * ciphertext with its tag, `open` gives the plaintext or None when
   * `subtle.decrypt` rejects (the tag does not verify, or anything else).
   */
  datatype AesGcm = AesGcm(
    seal: (seq<Byte>, seq<Byte>, seq<Byte>) -> seq<Byte>,
    open: (seq<Byte>, seq<Byte>, seq<Byte>) -> Option<seq<Byte>>)

  /** Decryption inverts encryption under the same key and a 12-byte IV. */
  ghost predicate Correct(aes: AesGcm) {
    forall key, iv, data | AesKeySize(|key|) && |iv| == IV_LEN :: aes.open(key, iv, aes.seal(key, iv, data)) == Some(data)
  }

  /** TextEncoder and TextDecoder. */
  datatype Utf8 = Utf8(encode: string -> seq<Byte>, decode: seq<Byte> -> string)

  ghost predicate Inverse(utf8: Utf8) {
    forall text :: utf8.decode(utf8.encode(text)) == text
  }

  /**
   * The browser facilities the file calls. `keySizes` holds the raw key
   * lengths, in bytes, that `subtle.importKey("raw", …)` accepts for AES-GCM.
   */
  datatype Platform = Platform(aes: AesGcm, utf8: Utf8, keySizes: set<int>)

  /**
   * The Web Crypto standard accepts 16-, 24- and 32-byte keys; a browser may
   * refuse some of them (Chromium refuses 24), but every browser takes the
   * 32-byte keys this program generates.
   */
  predicate KeySizesAllowed(p: Platform) {
    p.keySizes <= {16, 24, 32} && KEY_LEN in p.keySizes
  }

  /** One draw of the random source: the IV and the key material of one `encryptSecret` call. */
  datatype Entropy = Entropy(iv: Nonce, key: KeyMaterial)

  datatype EncryptedSecret = EncryptedSecret(encrypted: seq<Byte>, iv: seq<Byte>, key: CryptoKey)

  /** `encryptSecret`: UTF-8 encode, then AES-GCM under the IV and the key of this call's draw. */
  function EncryptSecret(p: Platform, plaintext: string, draw: Entropy): (r: EncryptedSecret)
    ensures |r.iv| == IV_LEN && |r.key.raw| == KEY_LEN
    ensures r.iv == draw.iv && r.key.raw == draw.key
  {
    var data := p.utf8.encode(plaintext);
    var key := CryptoKey(draw.key);
    EncryptedSecret(p.aes.seal(key.raw, draw.iv, data), draw.iv, key)
  }

  /** `decryptSecret`: every failure of `subtle.decrypt` becomes the one message. */
  function DecryptSecret(p: Platform, ciphertext: seq<Byte>, iv: seq<Byte>, key: CryptoKey): (r: Result<string, string>)
    ensures r.Err? ==> r.error == UNABLE_TO_DECRYPT
    ensures r.Ok? <==> p.aes.open(key.raw, iv, ciphertext).Some?
  {
    match p.aes.open(key.raw, iv, ciphertext)
    case None => Err(UNABLE_TO_DECRYPT)
    case Some(data) => Ok(p.utf8.decode(data))
  }

  /** Decrypting what `encryptSecret` produced gives the plaintext back. */
  lemma EncryptThenDecrypt(p: Platform, plaintext: string, draw: Entropy)
    requires Correct(p.aes) && Inverse(p.utf8)
    ensures var e := EncryptSecret(p, plaintext, draw);
      DecryptSecret(p, e.encrypted, e.iv, e.key) == Ok(plaintext)
  {
    var e := EncryptSecret(p, plaintext, draw);
    assert p.aes.open(e.key.raw, e.iv, p.aes.seal(e.key.raw, e.iv, p.utf8.encode(plaintext))) == Some(p.utf8.encode(plaintext));
  }

  /*** The codec wrappers ***/

  /** `String.fromCharCode(...bytes)`: one character per byte, with the byte as its code. */
  function Latin1(bs: seq<Byte>): (s: string)
    ensures |s| == |bs| && forall i | 0 <= i < |bs| :: s[i] as int == bs[i] as int
  {
    seq(|bs|, i requires 0 <= i < |bs| => bs[i] as int as char)
  }

  /** `atob`: the binary string, or None where it throws. */
  function Atob(s: string): Option<string> {
    match ForgivingDecode(s)
    case None => None
    case Some(bs) => Some(Latin1(bs))
  }

  /** Distinct byte strings give distinct binary strings: the character codes recover the bytes. */
  lemma Latin1Injective(a: seq<Byte>, b: seq<Byte>)
    ensures Latin1(a) == Latin1(b) <==> a == b
  {
    if Latin1(a) == Latin1(b) {
      forall i | 0 <= i < |a| ensures a[i] == b[i] {
        assert Latin1(a)[i] == Latin1(b)[i];
      }
    }
  }

  /** `atob` undoes the encoding `btoa(String.fromCharCode(...bytes))` performs: it gives back the binary string of the bytes. */
  lemma AtobOfEncoding(bs: seq<Byte>)
    ensures Atob(Encode(bs)) == Some(Latin1(bs))
  {
    EncodeIsCanonical(bs);
    ForgivingAgrees(Encode(bs));
    DecodeEncode(bs);
  }

  /**
   * What `base64ToUint8Array` returns or throws. It gives the strict result on
   * well-formed text, and it re-encodes to its input exactly on canonical text.
   */
  function DecodeBytes(s: string): (r: Result<seq<Byte>, string>)
    ensures r.Ok? <==> AtobAccepts(s)
    ensures r.Err? ==> r.error == INVALID_DATA_FORMAT
    ensures WellFormed(s) ==> r.Ok? && Decode(s) == Some(r.value)
    ensures r.Ok? ==> |r.value| == |DropPadding(StripWhitespace(s))| * 3 / 4
    ensures r.Ok? ==> (Encode(r.value) == s <==> Canonical(s))
  {
    ForgivingDecodeAccepts(s);
    DecodeAcceptsWellFormed(s);
    ForgivingAgrees(s);
    match ForgivingDecode(s)
    case None => Err(INVALID_DATA_FORMAT)
    case Some(bs) => ReencodesIffCanonical(s, bs); Ok(bs)
  }

  /**
   * `Base64.ReencodeExactlyCanonical` carried over to `atob`: it also covers
   * the texts `atob` accepts that are not well formed (unpadded, or with
   * whitespace), which the encoding never gives back.
   */
  lemma ReencodesIffCanonical(s: string, bs: seq<Byte>)
    requires ForgivingDecode(s) == Some(bs)
    ensures Encode(bs) == s <==> Canonical(s)
  {
    if Encode(bs) == s {
      EncodeIsCanonical(bs);
    }
    if Canonical(s) {
      EncodeDecode(s);
      ForgivingAgrees(s);
    }
  }

  /** `base64ToUint8Array`: allocate one byte per character of the binary string and copy the character codes. */
  method Base64ToUint8Array(base64: string) returns (r: Result<seq<Byte>, string>)
    ensures r == DecodeBytes(base64)
    ensures r.Ok? ==> Atob(base64).Some? && |r.value| == |Atob(base64).value|
    ensures r.Ok? ==> forall i | 0 <= i < |r.value| :: r.value[i] as int == Atob(base64).value[i] as int
  {
    var binary := Atob(base64);
    AtobIsDecodeBytes(base64);
    if binary.None? {
      return Err(INVALID_DATA_FORMAT);
    }
    var bytes := CharCodes(binary.value);
    r := Ok(bytes);
    ByteCopyIsDecoded(base64, bytes);
  }

  /** The loop of `base64ToUint8Array`: a fresh byte array filled with the character codes of a binary string. */
  method CharCodes(text: string) returns (bytes: seq<Byte>)
    requires forall i | 0 <= i < |text| :: text[i] as int < 256
    ensures |bytes| == |text| && forall j | 0 <= j < |text| :: bytes[j] as int == text[j] as int
  {
    var a := new Byte[|text|];
    for i := 0 to |text|
      invariant forall j | 0 <= j < i :: a[j] as int == text[j] as int
    {
      a[i] := text[i] as int as Byte;
    }
    bytes := a[..];
  }

  /** `atob` and `base64ToUint8Array` fail together, with the one message. */
  lemma AtobIsDecodeBytes(s: string)
    ensures Atob(s).None? <==> DecodeBytes(s).Err?
    ensures Atob(s).None? ==> DecodeBytes(s) == Err(INVALID_DATA_FORMAT)
  {
  }

  /** Bytes with the character codes of the binary string are what `base64ToUint8Array` returns. */
  lemma ByteCopyIsDecoded(s: string, bytes: seq<Byte>)
    requires Atob(s).Some? && |bytes| == |Atob(s).value|
    requires forall j | 0 <= j < |bytes| :: bytes[j] as int == Atob(s).value[j] as int
    ensures DecodeBytes(s) == Ok(bytes)
  {
    var decoded := ForgivingDecode(s).value;
    assert bytes == decoded;
  }

  /*** Key transport ***/

  /** `exportKeyToBase64`: the raw key bytes, base64-encoded. */
  function ExportKeyToBase64(key: CryptoKey): (text: string)
    ensures Decode(text) == Some(key.raw) && Canonical(text)
  {
    DecodeEncode(key.raw);
    EncodeIsCanonical(key.raw);
    Encode(key.raw)
  }

  /** What `importKeyFromBase64` returns or throws: a bad encoding and a rejected key give the same message. */
  function ImportKey(p: Platform, text: string): (r: Result<CryptoKey, string>)
    ensures r.Err? ==> r.error == INVALID_ENCRYPTION_KEY
    ensures r.Ok? <==> AtobAccepts(text) && |DropPadding(StripWhitespace(text))| * 3 / 4 in p.keySizes
    ensures r.Ok? ==> ForgivingDecode(text) == Some(r.value.raw)
    ensures WellFormed(text) ==> (r.Ok? <==> DecodedLength(text) in p.keySizes)
    ensures WellFormed(text) && r.Ok? ==> Decode(text) == Some(r.value.raw)
    ensures KeySizesAllowed(p) && r.Ok? ==> AesKeySize(|r.value.raw|)
  {
    match DecodeBytes(text)
    case Err(_) => Err(INVALID_ENCRYPTION_KEY)
    case Ok(bytes) => if |bytes| in p.keySizes then Ok(CryptoKey(bytes)) else Err(INVALID_ENCRYPTION_KEY)
  }

  /**
   * `importKeyFromBase64`: decode, then `subtle.importKey("raw", ...)`; either
   * failure becomes "Invalid encryption key.". The procedure, with its early
   * returns, is what the view page's method calls; `ImportKey` is its
   * specification, which the functions and lemmas use.
   */
  method ImportKeyFromBase64(p: Platform, base64Key: string) returns (r: Result<CryptoKey, string>)
    ensures r == ImportKey(p, base64Key)
  {
    var bytes := Base64ToUint8Array(base64Key);
    if bytes.Err? {
      return Err(INVALID_ENCRYPTION_KEY);
    }
    if |bytes.value| !in p.keySizes {
      return Err(INVALID_ENCRYPTION_KEY);
    }
    return Ok(CryptoKey(bytes.value));
  }

  /** Importing an exported key gives the same key back. */
  lemma KeyRoundTrip(p: Platform, key: CryptoKey)
    requires |key.raw| in p.keySizes
    ensures ImportKey(p, ExportKeyToBase64(key)) == Ok(key)
  {
    DecodeAcceptsWellFormed(ExportKeyToBase64(key));
  }

  /** A link whose key text lost its one '=' still opens: `atob` does not need the padding. */
  lemma UnpaddedKeyAccepted(p: Platform, key: CryptoKey)
    requires KeySizesAllowed(p) && |key.raw| == KEY_LEN
    ensures |ExportKeyToBase64(key)| == 44
    ensures ImportKey(p, ExportKeyToBase64(key)[..43]) == Ok(key)
  {
    var s := ExportKeyToBase64(key);
    assert DecodedLength(s) == 32 && |s| == 44;
    assert PadCount(s) == 1;
    WellFormedIsRepadded(s);
    var d := s[..43];
    assert StripWhitespace(d) == d by {
      forall i | 0 <= i < |d|
        ensures !IsAsciiWhitespace(d[i])
      {
        assert IsAlphabet(d[i]);
      }
    }
    assert DropPadding(d) == d;
    assert Repad(d) == s;
    assert ForgivingDecode(d) == Decode(s);
    ForgivingAgrees(s);
  }

  /** The key `encryptSecret` made, exported and imported again, decrypts what it encrypted. */
  lemma ExportedKeyDecrypts(p: Platform, plaintext: string, draw: Entropy)
    requires Correct(p.aes) && Inverse(p.utf8) && KeySizesAllowed(p)
    ensures var e := EncryptSecret(p, plaintext, draw);
      var imported := ImportKey(p, ExportKeyToBase64(e.key));
      imported.Ok? && DecryptSecret(p, e.encrypted, e.iv, imported.value) == Ok(plaintext)
  {
    var e := EncryptSecret(p, plaintext, draw);
    KeyRoundTrip(p, e.key);
    EncryptThenDecrypt(p, plaintext, draw);
  }

  /** A key of 31 bytes, like any text that is not base64, is refused locally with the one message. */
  lemma ShortKeyRejected(p: Platform, raw: seq<Byte>)
    requires KeySizesAllowed(p) && |raw| == 31
    ensures ImportKey(p, Encode(raw)) == Err(INVALID_ENCRYPTION_KEY)
  {
    DecodeEncode(raw);
    DecodeAcceptsWellFormed(Encode(raw));
  }

  /**
   * Whether a 24-byte key imports depends on the browser: the standard takes
   * it, Chromium refuses it with the one message.
   */
  lemma MiddleKeySizeDependsOnBrowser(p: Platform, raw: seq<Byte>)
    requires |raw| == 24
    ensures ImportKey(p, Encode(raw)).Ok? <==> 24 in p.keySizes
    ensures 24 !in p.keySizes ==> ImportKey(p, Encode(raw)) == Err(INVALID_ENCRYPTION_KEY)
  {
    DecodeEncode(raw);
    DecodeAcceptsWellFormed(Encode(raw));
  }
}
