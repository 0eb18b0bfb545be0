/**
 * The creator page (frontend/src/pages/CreateSecret.tsx): the submit button's
 * enabled condition and `handleSubmit`, with the page's `secret`, `loading`,
 * `error` and `shareableUrl` state cells as fields. Every POST body sent is
 * recorded in a log field together with the page state at the moment of
 * sending.
 */
module CreateSecret {
  import opened Wrappers
  import opened Base64
  import opened Crypto
  import opened ApiClient
  import opened SecretSchemas

  /** ECMAScript WhiteSpace and LineTerminator code points, which `trim` removes. */
  predicate IsJsWhitespace(c: char) {
    || c == '\t' || c == '\n' || c == '\U{000B}' || c == '\U{000C}' || c == '\r' || c == ' '
    || c == '\U{00A0}' || c == '\U{1680}' || ('\U{2000}' <= c <= '\U{200A}')
    || c == '\U{2028}' || c == '\U{2029}' || c == '\U{202F}' || c == '\U{205F}'
    || c == '\U{3000}' || c == '\U{FEFF}'
  }

  /** The suffix of `s` left after dropping its leading whitespace. */
  function TrimStart(s: string): (r: string)
    ensures |r| <= |s| && r == s[|s| - |r|..]
    ensures forall i | 0 <= i < |s| - |r| :: IsJsWhitespace(s[i])
    ensures r == "" || !IsJsWhitespace(r[0])
    decreases |s|
  {
    if |s| > 0 && IsJsWhitespace(s[0]) then TrimStart(s[1..]) else s
  }

  /** The prefix of `s` left after dropping its trailing whitespace. */
  function TrimEnd(s: string): (r: string)
    ensures |r| <= |s| && r == s[..|r|]
    ensures forall i | |r| <= i < |s| :: IsJsWhitespace(s[i])
    ensures r == "" || !IsJsWhitespace(r[|r| - 1])
    decreases |s|
  {
    if |s| > 0 && IsJsWhitespace(s[|s| - 1]) then TrimEnd(s[..|s| - 1]) else s
  }

  /** `String.prototype.trim`. */
  function Trim(s: string): string {
    TrimEnd(TrimStart(s))
  }

  /** `!secret.trim()` holds exactly when every character is whitespace. */
  lemma TrimEmptyIffBlank(s: string)
    ensures Trim(s) == "" <==> forall i | 0 <= i < |s| :: IsJsWhitespace(s[i])
  {
  }

  /** The body POSTed for `plaintext`: the ciphertext and IV in base64, nothing of the key. */
  function RequestBody(p: Platform, plaintext: string, draw: Entropy): (body: CreateSecretRequest)
    ensures Decode(body.ciphertext) == Some(EncryptSecret(p, plaintext, draw).encrypted)
    ensures Decode(body.iv) == Some(draw.iv)
    ensures Canonical(body.ciphertext) && Canonical(body.iv)
  {
    var e := EncryptSecret(p, plaintext, draw);
    DecodeEncode(e.encrypted);
    DecodeEncode(e.iv);
    EncodeIsCanonical(e.encrypted);
    EncodeIsCanonical(e.iv);
    CreateSecretRequest(Encode(e.encrypted), Encode(e.iv))
  }

  /**
   * Each submission encrypts with its own draw, so two submissions whose draws
   * differ send different IV texts and put different key texts in their links.
   */
  lemma FreshDrawPerSubmission(p: Platform, plaintext1: string, plaintext2: string, d1: Entropy, d2: Entropy)
    ensures d1.iv != d2.iv ==> RequestBody(p, plaintext1, d1).iv != RequestBody(p, plaintext2, d2).iv
    ensures d1.key != d2.key ==>
      ExportKeyToBase64(EncryptSecret(p, plaintext1, d1).key) != ExportKeyToBase64(EncryptSecret(p, plaintext2, d2).key)
  {
  }

  /** The link shown to the creator: the view path for `id`, then the key as the fragment. */
  function ShareableUrl(frontendUrl: string, id: string, keyText: string): string {
    frontendUrl + "/s/" + id + "#" + keyText
  }

  /**
   * What a submission ends with: the link, or the message of the error thrown
   * by the API client. The link's fragment is a canonical base64 text of the
   * key drawn for this submission.
   */
  function Submission(p: Platform, plaintext: string, draw: Entropy, frontendUrl: string, reply: Http<CreateSecretResponse>): (r: Result<string, string>)
    ensures r.Ok? <==> CreateSecret(reply).Ok?
    ensures r.Err? ==> CreateSecret(reply) == Err(r.error)
    ensures r.Ok? ==> exists keyText ::
      (r.value == ShareableUrl(frontendUrl, CreateSecret(reply).value, keyText)
       && Decode(keyText) == Some(draw.key) && Canonical(keyText))
  {
    var e := EncryptSecret(p, plaintext, draw);
    var keyText := ExportKeyToBase64(e.key);
    match CreateSecret(reply)
    case Err(message) => Err(message)
    case Ok(id) => Ok(ShareableUrl(frontendUrl, id, keyText))
  }

  /** A POST body and the page's `loading` and `error` cells when it was sent. */
  datatype Sent = Sent(body: CreateSecretRequest, loading: bool, error: Option<string>)

  class CreateSecretPage {
    var secret: string
    var loading: bool
    var error: Option<string>
    var shareableUrl: Option<string>
    var sent: seq<Sent>

    /** The initial state cells: empty text, not loading, no error, no link. */
    constructor ()
      ensures secret == "" && !loading && error == None && shareableUrl == None && sent == []
    {
      secret := "";
      loading := false;
      error := None;
      shareableUrl := None;
      sent := [];
    }

    /** `disabled={loading || !secret.trim()}`, negated. */
    function SubmitEnabled(): (enabled: bool)
      reads this
      ensures enabled <==> !loading && exists i | 0 <= i < |secret| :: !IsJsWhitespace(secret[i])
    {
      TrimEmptyIffBlank(secret);
      !loading && Trim(secret) != ""
    }

    /** The textarea's `onChange`. */
    method Edit(text: string)
      modifies this`secret
      ensures secret == text
    {
      secret := text;
    }

    /** `handleSubmit`, with this submission's random draw and the server's reply as inputs. */
    method HandleSubmit(p: Platform, draw: Entropy, frontendUrl: string, reply: Http<CreateSecretResponse>)
      modifies this
      ensures sent == old(sent) + [Sent(RequestBody(p, old(secret), draw), true, None)]
      ensures !loading
      ensures var r := Submission(p, old(secret), draw, frontendUrl, reply);
        && (r.Ok? ==> shareableUrl == Some(r.value) && secret == "" && error == None)
        && (r.Err? ==> shareableUrl == old(shareableUrl) && secret == old(secret) && error == Some(r.error))
    {
      loading := true;
      error := None;
      var encrypted := EncryptSecret(p, secret, draw);
      var ciphertextBase64 := Encode(encrypted.encrypted);
      var ivBase64 := Encode(encrypted.iv);
      var keyBase64 := ExportKeyToBase64(encrypted.key);
      sent := sent + [Sent(CreateSecretRequest(ciphertextBase64, ivBase64), loading, error)];
      var response := CreateSecret(reply);
      if response.Ok? {
        shareableUrl := Some(ShareableUrl(frontendUrl, response.value, keyBase64));
        secret := "";
      } else {
        error := Some(response.error);
      }
      loading := false;
    }
  }
}
