/**
 * The whole exchange: the creator's POST body is stored by the backend, the
 * link's fragment carries the key to the viewer's page, the viewer's one GET
 * returns the stored ciphertext and IV and the page shows the plaintext; a
 * second GET for the same id is not found.
 */
module Protocol {
  import opened Wrappers
  import opened Base64
  import opened LenientBase64
  import opened Crypto
  import opened SecretSchemas
  import opened SecretModel
  import opened SecretRouter
  import opened ApiClient
  import opened CreateSecret
  import opened ViewSecret

  /** `location.hash` of a URL: from the first '#' on, or empty when there is no fragment. */
  function LocationHash(url: string): string
    decreases |url|
  {
    if |url| == 0 then ""
    else if url[0] == '#' then (if |url| == 1 then "" else url)
    else LocationHash(url[1..])
  }

  /** The hash of a URL whose only '#' starts a non-empty fragment is that fragment. */
  lemma {:induction false} HashOfLink(prefix: string, fragment: string)
    requires '#' !in prefix && fragment != ""
    ensures LocationHash(prefix + "#" + fragment) == "#" + fragment
    decreases |prefix|
  {
    if |prefix| == 0 {
      assert prefix + "#" + fragment == "#" + fragment;
    } else {
      assert (prefix + "#" + fragment)[1..] == prefix[1..] + "#" + fragment;
      HashOfLink(prefix[1..], fragment);
    }
  }

  /** The viewer's page finds in the hash of the creator's link the key text that was exported. */
  lemma LinkCarriesKey(frontendUrl: string, id: string, keyText: string)
    requires '#' !in frontendUrl && '#' !in id && keyText != ""
    ensures KeyText(LocationHash(ShareableUrl(frontendUrl, id, keyText))) == keyText
  {
    HashOfLink(frontendUrl + "/s/" + id, keyText);
    assert ShareableUrl(frontendUrl, id, keyText) == (frontendUrl + "/s/" + id) + "#" + keyText;
  }

  /** The creator's link is made, and its hash carries the exported key text. */
  lemma LinkHashIsKey(p: Platform, plaintext: string, draw: Entropy, frontendUrl: string, id: string)
    requires '#' !in frontendUrl && '#' !in id
    ensures
      var link := Submission(p, plaintext, draw, frontendUrl, Response(201, "Created", CreateSecretResponse(id)));
      && link.Ok?
      && KeyText(LocationHash(link.value)) == ExportKeyToBase64(EncryptSecret(p, plaintext, draw).key)
  {
    var keyText := ExportKeyToBase64(EncryptSecret(p, plaintext, draw).key);
    assert keyText != "" by { assert Decode(keyText).Some?; }
    LinkCarriesKey(frontendUrl, id, keyText);
  }

  /** The envelope of the encodings of the ciphertext and IV decrypts, under the imported key, to the plaintext. */
  lemma EnvelopeDecrypts(p: Platform, plaintext: string, draw: Entropy)
    requires Correct(p.aes) && Inverse(p.utf8) && KeySizesAllowed(p)
    ensures
      var e := EncryptSecret(p, plaintext, draw);
      var key := ImportKey(p, ExportKeyToBase64(e.key));
      && key.Ok?
      && Fetched(p, key.value, Response(200, "OK", GetSecretResponse(Encode(e.encrypted), Encode(e.iv)))) == Ok(plaintext)
  {
    var e := EncryptSecret(p, plaintext, draw);
    ExportedKeyDecrypts(p, plaintext, draw);
    DecodeEncode(e.encrypted);
    DecodeEncode(e.iv);
    EncodeIsCanonical(e.encrypted);
    EncodeIsCanonical(e.iv);
    assert DecodeBytes(Encode(e.encrypted)) == Ok(e.encrypted);
    assert DecodeBytes(Encode(e.iv)) == Ok(e.iv);
  }

  /**
   * The view page, given the id and hash of the creator's link, shows the
   * creator's plaintext when the GET returns the encodings of the ciphertext
   * and IV, and the one not-found message on a 404.
   */
  lemma ViewerDecrypts(p: Platform, plaintext: string, draw: Entropy, frontendUrl: string, id: string, anyBody: GetSecretResponse)
    requires Correct(p.aes) && Inverse(p.utf8) && KeySizesAllowed(p)
    requires '#' !in frontendUrl && '#' !in id
    ensures
      var e := EncryptSecret(p, plaintext, draw);
      var link := Submission(p, plaintext, draw, frontendUrl, Response(201, "Created", CreateSecretResponse(id)));
      && link.Ok?
      && Load(p, id, LocationHash(link.value), Response(200, "OK", GetSecretResponse(Encode(e.encrypted), Encode(e.iv)))).result == Ok(plaintext)
      && Load(p, id, LocationHash(link.value), Response(404, "Not Found", anyBody)).result == Err(NOT_FOUND_MESSAGE)
  {
    LinkHashIsKey(p, plaintext, draw, frontendUrl, id);
    EnvelopeDecrypts(p, plaintext, draw);
  }

  /**
   * One secret, end to end. Given a correct cipher and text codec, a
   * browser that imports 32-byte keys, a ciphertext under the size limit the
   * request validation enforces (one byte short of 10 MiB) and an id new to
   * the table, the create succeeds, the first read within the hour shows the
   * viewer the creator's plaintext, and a second read is not found, which the
   * viewer's page reports with the one not-found message.
   */
  lemma OneTimeExchange(p: Platform, plaintext: string, draw: Entropy, frontendUrl: string,
                        t: SecretTable, id: string, now: int, later: int, again: int, anyBody: GetSecretResponse)
    requires Correct(p.aes) && Inverse(p.utf8) && KeySizesAllowed(p)
    requires |EncryptSecret(p, plaintext, draw).encrypted| < MAX_CIPHERTEXT_LEN
    requires id !in t && '#' !in frontendUrl && '#' !in id
    requires later < now + EXPIRY_INTERVAL
    ensures
      var body := RequestBody(p, plaintext, draw);
      var (t1, created) := CreateStep(t, body, id, now, false);
      var link := Submission(p, plaintext, draw, frontendUrl, Response(201, "Created", CreateSecretResponse(id)));
      var (t2, first) := GetStep(t1, id, later, false);
      var second := GetStep(t2, id, again, false).1;
      && created == Created(CreateSecretResponse(id))
      && link.Ok?
      && first.Found?
      && Load(p, id, LocationHash(link.value), Response(200, "OK", first.response)).result == Ok(plaintext)
      && second == NotFound
      && Load(p, id, LocationHash(link.value), Response(404, "Not Found", anyBody)).result == Err(NOT_FOUND_MESSAGE)
  {
    var e := EncryptSecret(p, plaintext, draw);
    var body := RequestBody(p, plaintext, draw);
    assert body == CreateSecretRequest(Encode(e.encrypted), Encode(e.iv));
    EncodedRequestAccepted(e.encrypted, e.iv);
    CreateThenGetTwice(t, body, id, now, later, again);
    ViewerDecrypts(p, plaintext, draw, frontendUrl, id, anyBody);
  }
}
