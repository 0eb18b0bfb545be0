/**
 * Request validation of the backend (backend/app/routers/schemas/secrets.py):
 * the string-length bounds of `CreateSecretRequest` and its two field
 * validators, and the wire shapes of the two endpoints.
 */
module SecretSchemas {
  import opened Wrappers
  import opened Base64

  /** Size limit on the decoded ciphertext: 10 MiB. */
  const MAX_CIPHERTEXT_LEN: nat := 10 * 1024 * 1024

  /** AES-GCM nonce length in bytes. */
  const AES_GCM_IV_LEN: nat := 12

  /** `math.ceil(n * 4 / 3)`; the float division is exact enough for both constants used. */
  function CeilFourThirds(n: nat): nat {
    (n * 4 + 2) / 3
  }

  /** max_length of the ciphertext text, as written. */
  const CIPHERTEXT_MAX_CHARS: nat := CeilFourThirds(MAX_CIPHERTEXT_LEN)

  /** max_length of the IV text. */
  const IV_MAX_CHARS: nat := CeilFourThirds(AES_GCM_IV_LEN)

  /** Body of POST /secrets. It has no field for the key. */
  datatype CreateSecretRequest = CreateSecretRequest(ciphertext: string, iv: string)

  /** Body of the 201 reply to POST /secrets. */
  datatype CreateSecretResponse = CreateSecretResponse(id: string)

  /** Body of the 200 reply to GET /secrets/{id}. */
  datatype GetSecretResponse = GetSecretResponse(ciphertext: string, iv: string)

  datatype Field = CiphertextField | IvField

  /** The validation errors; FastAPI answers any of them with status 422. */
  datatype FieldError =
    | StringTooLong(field: Field, maxLength: nat)
    | InvalidBase64(field: Field)
    | CiphertextTooLarge
    | IvWrongLength

  lemma BoundConstants()
    ensures CIPHERTEXT_MAX_CHARS == 13981014
    ensures IV_MAX_CHARS == 16
  {
  }

  /**
   * `validate_ciphertext_base64`: `base64.b64decode(v, validate=True)`, which
   * since Python 3.11 decodes exactly the well-formed texts, then a size
   * check of at most MAX_CIPHERTEXT_LEN bytes; the input itself on success.
   */
  function ValidateCiphertextBase64(v: string): (r: Result<string, FieldError>)
    ensures r.Ok? <==> WellFormed(v) && DecodedLength(v) <= MAX_CIPHERTEXT_LEN
    ensures r.Ok? ==> r.value == v
    ensures r == Err(InvalidBase64(CiphertextField)) <==> !WellFormed(v)
    ensures WellFormed(v) && DecodedLength(v) > MAX_CIPHERTEXT_LEN ==> r == Err(CiphertextTooLarge)
  {
    DecodeAcceptsWellFormed(v);
    match Decode(v)
    case None => Err(InvalidBase64(CiphertextField))
    case Some(decoded) =>
      if |decoded| > MAX_CIPHERTEXT_LEN then Err(CiphertextTooLarge) else Ok(v)
  }

  /** `validate_iv_base64`: well-formed base64 of exactly AES_GCM_IV_LEN bytes; the input itself on success. */
  function ValidateIvBase64(v: string): (r: Result<string, FieldError>)
    ensures r.Ok? <==> WellFormed(v) && DecodedLength(v) == AES_GCM_IV_LEN
    ensures r.Ok? ==> r.value == v
    ensures r == Err(InvalidBase64(IvField)) <==> !WellFormed(v)
    ensures WellFormed(v) && DecodedLength(v) != AES_GCM_IV_LEN ==> r == Err(IvWrongLength)
  {
    DecodeAcceptsWellFormed(v);
    match Decode(v)
    case None => Err(InvalidBase64(IvField))
    case Some(decoded) =>
      if |decoded| != AES_GCM_IV_LEN then Err(IvWrongLength) else Ok(v)
  }

  /** Text with a character outside the alphabet, such as "invalid-base64", fails both validators as bad base64. */
  lemma OutsideAlphabetRejected()
    ensures ValidateCiphertextBase64("invalid-base64") == Err(InvalidBase64(CiphertextField))
    ensures ValidateIvBase64("invalid-base64") == Err(InvalidBase64(IvField))
  {
    var v := "invalid-base64";
    assert !IsAlphabet(v[7]);
  }

  /**
   * The strict decode refuses a '=' past the padding ("AAAA=", "AAA==") and
   * a missing '=' ("AA="), in either field.
   */
  lemma StrayPadsRefused()
    ensures ValidateCiphertextBase64("AAAA=") == Err(InvalidBase64(CiphertextField))
    ensures ValidateCiphertextBase64("AAA==") == Err(InvalidBase64(CiphertextField))
    ensures ValidateCiphertextBase64("AA=") == Err(InvalidBase64(CiphertextField))
    ensures ValidateIvBase64("AAAA=") == Err(InvalidBase64(IvField))
    ensures ValidateIvBase64("AAA==") == Err(InvalidBase64(IvField))
  {
    assert |"AAAA="| % 4 != 0 && |"AAA=="| % 4 != 0 && |"AA="| % 4 != 0;
  }

  /** The encoding of any byte string but a 12-byte one, such as b"short", is refused as an IV of the wrong length. */
  lemma EncodedIvOfWrongLengthRejected(bs: seq<Byte>)
    requires |bs| != AES_GCM_IV_LEN
    ensures ValidateIvBase64(Encode(bs)) == Err(IvWrongLength)
  {
    DecodeEncode(bs);
    DecodeAcceptsWellFormed(Encode(bs));
  }

  /** The ciphertext field as written: the max_length constraint, then the validator. */
  function ValidateCiphertextField(v: string): Result<string, FieldError> {
    if |v| > CIPHERTEXT_MAX_CHARS then Err(StringTooLong(CiphertextField, CIPHERTEXT_MAX_CHARS))
    else ValidateCiphertextBase64(v)
  }

  /** The IV field: the max_length constraint, then the validator. */
  function ValidateIvField(v: string): Result<string, FieldError> {
    if |v| > IV_MAX_CHARS then Err(StringTooLong(IvField, IV_MAX_CHARS))
    else ValidateIvBase64(v)
  }

  /** The IV field accepts exactly the well-formed texts of 12 bytes; the 16-character bound never bites first. */
  lemma IvFieldAcceptsExactly(v: string)
    ensures ValidateIvField(v).Ok? <==> WellFormed(v) && DecodedLength(v) == AES_GCM_IV_LEN
    ensures ValidateIvField(v).Ok? ==> ValidateIvField(v).value == v
  {
    if WellFormed(v) && DecodedLength(v) == AES_GCM_IV_LEN {
      assert |v| == 16;
    }
  }

  /*** The ciphertext bound, as written and as intended ***/

  /**
   * As written, the field accepts exactly the well-formed texts of at most
   * MAX_CIPHERTEXT_LEN - 1 bytes: one byte short of the limit.
   */
  lemma CiphertextFieldLimitAsWritten(v: string)
    ensures ValidateCiphertextField(v).Ok? <==> WellFormed(v) && DecodedLength(v) <= MAX_CIPHERTEXT_LEN - 1
    ensures ValidateCiphertextField(v).Ok? ==> ValidateCiphertextField(v).value == v
  {
    if WellFormed(v) {
      AsWrittenBound(|v| / 4, PadCount(v));
    }
  }

  /** A text of q whole groups fits in 13,981,014 characters exactly when, less up to two pads, it stands for at most 10,485,759 bytes. */
  lemma AsWrittenBound(q: int, p: int)
    requires 0 <= q && 0 <= p <= 2
    ensures 4 * q <= CIPHERTEXT_MAX_CHARS <==> q * 3 - p <= MAX_CIPHERTEXT_LEN - 1
  {
    BoundConstants();
  }

  /** A ciphertext of exactly MAX_CIPHERTEXT_LEN bytes passes the validator but its text exceeds max_length. */
  lemma MaxSizeCiphertextRejected(bs: seq<Byte>)
    requires |bs| == MAX_CIPHERTEXT_LEN
    ensures ValidateCiphertextBase64(Encode(bs)) == Ok(Encode(bs))
    ensures ValidateCiphertextField(Encode(bs)) == Err(StringTooLong(CiphertextField, CIPHERTEXT_MAX_CHARS))
  {
    var s := Encode(bs);
    assert |s| == 13981016;
    DecodeEncode(bs);
    DecodeAcceptsWellFormed(s);
  }

  /** The bound of the ciphertext text that matches the decoded limit: the length of the encoding of MAX_CIPHERTEXT_LEN bytes. */
  const CIPHERTEXT_MAX_CHARS_INTENDED: nat := 4 * ((MAX_CIPHERTEXT_LEN + 2) / 3)

  /** The ciphertext field with the intended max_length. */
  function ValidateCiphertextFieldIntended(v: string): Result<string, FieldError> {
    if |v| > CIPHERTEXT_MAX_CHARS_INTENDED then Err(StringTooLong(CiphertextField, CIPHERTEXT_MAX_CHARS_INTENDED))
    else ValidateCiphertextBase64(v)
  }

  /** With the intended bound, the field accepts exactly the well-formed texts of at most MAX_CIPHERTEXT_LEN bytes. */
  lemma CiphertextFieldIntendedAcceptsExactly(v: string)
    ensures ValidateCiphertextFieldIntended(v).Ok? <==> WellFormed(v) && DecodedLength(v) <= MAX_CIPHERTEXT_LEN
    ensures ValidateCiphertextFieldIntended(v).Ok? ==> ValidateCiphertextFieldIntended(v).value == v
  {
    if WellFormed(v) && DecodedLength(v) <= MAX_CIPHERTEXT_LEN {
      IntendedBound(|v| / 4, PadCount(v));
    }
  }

  /** q whole groups that, less up to two pads, stand for at most 10 MiB take at most 13,981,016 characters. */
  lemma IntendedBound(q: int, p: int)
    requires 0 <= q && 0 <= p <= 2 && q * 3 - p <= MAX_CIPHERTEXT_LEN
    ensures 4 * q <= CIPHERTEXT_MAX_CHARS_INTENDED
  {
    assert q <= 3495254;
  }

  /** Both fields are validated and every error is reported; the ciphertext field with the bound given. */
  function ValidateBody(req: CreateSecretRequest, ciphertextField: Result<string, FieldError>): Result<CreateSecretRequest, seq<FieldError>> {
    var i := ValidateIvField(req.iv);
    if ciphertextField.Ok? && i.Ok? then Ok(req)
    else Err((if ciphertextField.Err? then [ciphertextField.error] else []) + (if i.Err? then [i.error] else []))
  }

  /**
   * The whole body, as written: the ciphertext must stand for fewer than
   * MAX_CIPHERTEXT_LEN bytes and the IV for exactly 12.
   */
  function ValidateRequest(req: CreateSecretRequest): (r: Result<CreateSecretRequest, seq<FieldError>>)
    ensures r.Ok? <==>
      && WellFormed(req.ciphertext) && DecodedLength(req.ciphertext) < MAX_CIPHERTEXT_LEN
      && WellFormed(req.iv) && DecodedLength(req.iv) == AES_GCM_IV_LEN
    ensures r.Ok? ==> r.value == req
    ensures r.Err? ==> 1 <= |r.error| <= 2
    ensures |req.ciphertext| <= CIPHERTEXT_MAX_CHARS && !WellFormed(req.ciphertext) ==> r.Err? && InvalidBase64(CiphertextField) in r.error
    ensures |req.iv| <= IV_MAX_CHARS && !WellFormed(req.iv) ==> r.Err? && InvalidBase64(IvField) in r.error
  {
    CiphertextFieldLimitAsWritten(req.ciphertext);
    IvFieldAcceptsExactly(req.iv);
    ValidateBody(req, ValidateCiphertextField(req.ciphertext))
  }

  /** The whole body with the intended ciphertext bound: up to MAX_CIPHERTEXT_LEN bytes. */
  function ValidateRequestIntended(req: CreateSecretRequest): (r: Result<CreateSecretRequest, seq<FieldError>>)
    ensures r.Ok? <==>
      && WellFormed(req.ciphertext) && DecodedLength(req.ciphertext) <= MAX_CIPHERTEXT_LEN
      && WellFormed(req.iv) && DecodedLength(req.iv) == AES_GCM_IV_LEN
    ensures r.Ok? ==> r.value == req
    ensures r.Err? ==> 1 <= |r.error| <= 2
  {
    CiphertextFieldIntendedAcceptsExactly(req.ciphertext);
    IvFieldAcceptsExactly(req.iv);
    ValidateBody(req, ValidateCiphertextFieldIntended(req.ciphertext))
  }

  /**
   * A body made of the encodings of a ciphertext and an IV is accepted as
   * written exactly when the ciphertext is under the limit and the IV has 12
   * bytes; with the intended bound, a ciphertext of exactly the limit passes too.
   */
  lemma EncodedRequestAccepted(ciphertext: seq<Byte>, iv: seq<Byte>)
    ensures ValidateRequest(CreateSecretRequest(Encode(ciphertext), Encode(iv))).Ok?
      <==> |ciphertext| < MAX_CIPHERTEXT_LEN && |iv| == AES_GCM_IV_LEN
    ensures ValidateRequestIntended(CreateSecretRequest(Encode(ciphertext), Encode(iv))).Ok?
      <==> |ciphertext| <= MAX_CIPHERTEXT_LEN && |iv| == AES_GCM_IV_LEN
  {
    DecodeEncode(ciphertext);
    DecodeAcceptsWellFormed(Encode(ciphertext));
    DecodeEncode(iv);
    DecodeAcceptsWellFormed(Encode(iv));
  }
}
