/**
 * The viewer page's effect (frontend/src/pages/ViewSecret.tsx, lines 20-65):
 * the `hasLoadedRef` guard and the `loadSecret` procedure, with the page's
 * `secret`, `loading` and `error` state cells as fields. The calls made to key
 * import and to the API are recorded, in order, in a log field.
 */
module ViewSecret {
  import opened Wrappers
  import opened Base64
  import opened LenientBase64
  import opened Crypto
  import opened ApiClient
  import opened SecretSchemas

  const INVALID_SECRET_ID: string := "Invalid secret ID"
  const KEY_NOT_IN_URL: string := "Encryption key not found in URL"

  /** An outside call the procedure makes. */
  datatype Call = ImportKeyCall(keyText: string) | GetSecretCall(id: string)

  /** `hash.slice(1)`: the fragment without its leading '#'. */
  function KeyText(hash: string): string {
    if |hash| == 0 then "" else hash[1..]
  }

  /** `!id`: the route gave no id, or an empty one. */
  predicate MissingId(id: Option<string>) {
    id.None? || id.value == ""
  }

  /** `hasLoadedRef.current === id`; null never equals undefined. */
  predicate SameId(loaded: Option<string>, id: Option<string>) {
    loaded.Some? && id.Some? && loaded.value == id.value
  }

  function FetchCount(calls: seq<Call>): nat
    decreases |calls|
  {
    if |calls| == 0 then 0 else (if calls[0].GetSecretCall? then 1 else 0) + FetchCount(calls[1..])
  }

  datatype Loaded = Loaded(result: Result<string, string>, calls: seq<Call>)

  /**
   * What follows a successful key import: the fetch, decoding both fields and
   * decryption; the plaintext or the message of the error thrown.
   */
  function Fetched(p: Platform, key: CryptoKey, reply: Http<GetSecretResponse>): (r: Result<string, string>)
    ensures r.Ok? ==>
      && GetSecret(reply).Ok?
      && ForgivingDecode(reply.body.ciphertext).Some? && ForgivingDecode(reply.body.iv).Some?
      && r == DecryptSecret(p, ForgivingDecode(reply.body.ciphertext).value, ForgivingDecode(reply.body.iv).value, key)
    ensures GetSecret(reply).Err? ==> r == Err(GetSecret(reply).error)
    ensures GetSecret(reply).Ok? && (DecodeBytes(reply.body.ciphertext).Err? || DecodeBytes(reply.body.iv).Err?) ==>
      r == Err(INVALID_DATA_FORMAT)
    ensures GetSecret(reply).Ok? && DecodeBytes(reply.body.ciphertext).Ok? && DecodeBytes(reply.body.iv).Ok? ==>
      r == DecryptSecret(p, DecodeBytes(reply.body.ciphertext).value, DecodeBytes(reply.body.iv).value, key)
  {
    match GetSecret(reply)
    case Err(e) => Err(e)
    case Ok(response) =>
      match DecodeBytes(response.ciphertext)
      case Err(e) => Err(e)
      case Ok(ciphertext) =>
        match DecodeBytes(response.iv)
        case Err(e) => Err(e)
        case Ok(iv) => DecryptSecret(p, ciphertext, iv, key)
  }

  /**
   * The try block of `loadSecret`: the plaintext or the message of the error
   * it throws, and the calls it made. The key is imported before the one
   * fetch, and the fetch happens only when the import succeeded.
   */
  function Load(p: Platform, id: string, hash: string, reply: Http<GetSecretResponse>): (r: Loaded)
    ensures r.calls == [] <==> KeyText(hash) == ""
    ensures r.calls != [] ==> r.calls[0] == ImportKeyCall(KeyText(hash))
    ensures |r.calls| == 2 <==> KeyText(hash) != "" && ImportKey(p, KeyText(hash)).Ok?
    ensures |r.calls| <= 2 && (|r.calls| == 2 ==> r.calls[1] == GetSecretCall(id))
    ensures KeyText(hash) == "" ==> r.result == Err(KEY_NOT_IN_URL)
    ensures KeyText(hash) != "" && ImportKey(p, KeyText(hash)).Err? ==> r.result == Err(INVALID_ENCRYPTION_KEY)
    ensures KeyText(hash) != "" && ImportKey(p, KeyText(hash)).Ok? ==>
      r.result == Fetched(p, ImportKey(p, KeyText(hash)).value, reply)
  {
    var keyText := KeyText(hash);
    if keyText == "" then Loaded(Err(KEY_NOT_IN_URL), [])
    else
      match ImportKey(p, keyText)
      case Err(e) => Loaded(Err(e), [ImportKeyCall(keyText)])
      case Ok(key) => Loaded(Fetched(p, key, reply), [ImportKeyCall(keyText), GetSecretCall(id)])
  }

  /**
   * A reply whose fields decode but do not open under the imported key, such
   * as a ciphertext of four bytes, is shown as "Unable to decrypt the secret.".
   */
  lemma DecryptFailureShown(p: Platform, id: string, hash: string, ciphertext: seq<Byte>, iv: seq<Byte>)
    requires KeyText(hash) != "" && ImportKey(p, KeyText(hash)).Ok?
    requires p.aes.open(ImportKey(p, KeyText(hash)).value.raw, iv, ciphertext).None?
    ensures Load(p, id, hash, Response(200, "OK", GetSecretResponse(Encode(ciphertext), Encode(iv)))).result
      == Err(UNABLE_TO_DECRYPT)
  {
    DecodeEncode(ciphertext);
    DecodeEncode(iv);
    EncodeIsCanonical(ciphertext);
    EncodeIsCanonical(iv);
  }

  /** At most one fetch per load, and one exactly when the key imported. */
  lemma LoadFetchesOnce(p: Platform, id: string, hash: string, reply: Http<GetSecretResponse>)
    ensures FetchCount(Load(p, id, hash, reply).calls) == (if KeyText(hash) != "" && ImportKey(p, KeyText(hash)).Ok? then 1 else 0)
  {
    var keyText := KeyText(hash);
    if keyText != "" && ImportKey(p, keyText).Ok? {
      var calls := [ImportKeyCall(keyText), GetSecretCall(id)];
      assert Load(p, id, hash, reply).calls == calls;
      assert calls[1..] == [GetSecretCall(id)];
      assert calls[1..][1..] == [];
      assert FetchCount(calls[1..]) == 1 + FetchCount(calls[1..][1..]);
    } else if keyText != "" {
      var calls := [ImportKeyCall(keyText)];
      assert Load(p, id, hash, reply).calls == calls;
      assert calls[1..] == [];
    }
  }

  class ViewSecretPage {
    var secret: Option<string>
    var loading: bool
    var error: Option<string>
    var hasLoadedRef: Option<string>
    var calls: seq<Call>

    /** The initial state cells: no secret, loading, no error, nothing loaded. */
    constructor ()
      ensures secret == None && loading && error == None && hasLoadedRef == None && calls == []
    {
      secret := None;
      loading := true;
      error := None;
      hasLoadedRef := None;
      calls := [];
    }

    /** The try block of `loadSecret`. */
    method FetchAndDecrypt(p: Platform, id: string, hash: string, reply: Http<GetSecretResponse>) returns (r: Result<string, string>)
      modifies this`calls
      ensures r == Load(p, id, hash, reply).result
      ensures calls == old(calls) + Load(p, id, hash, reply).calls
    {
      var hashValue := KeyText(hash);
      if hashValue == "" {
        return Err(KEY_NOT_IN_URL);
      }
      calls := calls + [ImportKeyCall(hashValue)];
      var key := ImportKeyFromBase64(p, hashValue);
      if key.Err? {
        return Err(key.error);
      }
      calls := calls + [GetSecretCall(id)];
      var response := GetSecret(reply);
      if response.Err? {
        return Err(response.error);
      }
      var ciphertext := Base64ToUint8Array(response.value.ciphertext);
      if ciphertext.Err? {
        return Err(ciphertext.error);
      }
      var iv := Base64ToUint8Array(response.value.iv);
      if iv.Err? {
        return Err(iv.error);
      }
      r := DecryptSecret(p, ciphertext.value, iv.value, key.value);
    }

    /** One run of the effect for the route's `id` and the location's `hash`. */
    method RunEffect(p: Platform, id: Option<string>, hash: string, reply: Http<GetSecretResponse>)
      modifies this
      ensures SameId(old(hasLoadedRef), id) ==>
        && secret == old(secret) && loading == old(loading) && error == old(error)
        && hasLoadedRef == old(hasLoadedRef) && calls == old(calls)
      ensures !SameId(old(hasLoadedRef), id) && MissingId(id) ==>
        && secret == None && !loading && error == Some(INVALID_SECRET_ID)
        && hasLoadedRef == old(hasLoadedRef) && calls == old(calls)
      ensures !SameId(old(hasLoadedRef), id) && !MissingId(id) ==>
        var l := Load(p, id.value, hash, reply);
        && hasLoadedRef == id && !loading
        && calls == old(calls) + l.calls
        && (l.result.Ok? ==> secret == Some(l.result.value) && error == None)
        && (l.result.Err? ==> secret == None && error == Some(l.result.error))
    {
      if !SameId(hasLoadedRef, id) {
        secret := None;
        loading := true;
        error := None;
      }
      if SameId(hasLoadedRef, id) {
        return;
      }
      if MissingId(id) {
        error := Some(INVALID_SECRET_ID);
        loading := false;
        return;
      }
      hasLoadedRef := id;
      var outcome := FetchAndDecrypt(p, id.value, hash, reply);
      match outcome {
        case Ok(plaintext) => secret := Some(plaintext);
        case Err(message) => error := Some(message);
      }
      loading := false;
    }
  }

  /**
   * The effect run twice for the same id and hash, as a re-render or React's
   * development mode does: the guard lets at most one fetch through, and that
   * one only after the key imported.
   */
  method EffectRunTwice(p: Platform, id: Option<string>, hash: string, reply: Http<GetSecretResponse>) returns (fetches: nat)
    ensures fetches <= 1
    ensures fetches == 1 <==> !MissingId(id) && KeyText(hash) != "" && ImportKey(p, KeyText(hash)).Ok?
  {
    var page := new ViewSecretPage();
    page.RunEffect(p, id, hash, reply);
    ghost var first := page.calls;
    assert MissingId(id) ==> first == [] && page.hasLoadedRef == None;
    assert !MissingId(id) ==> SameId(page.hasLoadedRef, id) && first == Load(p, id.value, hash, reply).calls;
    page.RunEffect(p, id, hash, reply);
    assert page.calls == first;
    fetches := FetchCount(page.calls);
    if !MissingId(id) {
      LoadFetchesOnce(p, id.value, hash, reply);
    }
  }
}
