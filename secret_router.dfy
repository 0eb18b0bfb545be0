/**
 * The two endpoints of backend/app/routers/secrets.py as operations on the
 * secrets table: POST /secrets inserts a row, GET /secrets/{id} releases it at
 * most once. Each request is one atomic step; the nanoid id, the clock and a
 * database failure are parameters.
 */
module SecretRouter {
  import opened Wrappers
  import opened Base64
  import opened SecretSchemas
  import opened SecretModel

  /** 201 with the id, 422 with the validation errors, or 500 "Could not create secret". */
  datatype CreateOutcome =
    | Created(response: CreateSecretResponse)
    | Unprocessable(errors: seq<FieldError>)
    | CouldNotCreate

  /** 200 with the envelope, 404 "Secret not found", or 500 "Failed to retrieve secret". */
  datatype GetOutcome =
    | Found(response: GetSecretResponse)
    | NotFound
    | FailedToRetrieve

  /** The negation of the router's guard: the row exists, has a view left and has not expired. */
  predicate Retrievable(t: SecretTable, id: string, now: int) {
    id in t && t[id].viewsRemaining > 0 && now < t[id].expiresAt
  }

  /**
   * `create_secret`, after FastAPI has validated the body. The commit fails
   * when the database does (`dbFails`) or when the id is already taken, and the
   * rollback leaves the table as it was.
   */
  function CreateStep(t: SecretTable, req: CreateSecretRequest, id: string, now: int, dbFails: bool): (r: (SecretTable, CreateOutcome))
    ensures r.1.Created? <==> ValidateRequest(req).Ok? && !dbFails && id !in t
    ensures r.1.Created? ==>
      && r.1.response.id == id
      && r.0.Keys == t.Keys + {id}
      && (forall k | k in t :: r.0[k] == t[k])
      && Decode(req.ciphertext) == Some(r.0[id].ciphertext)
      && Decode(req.iv) == Some(r.0[id].iv)
      && r.0[id].viewsRemaining == 1
      && r.0[id].createdAt == now
      && r.0[id].expiresAt == now + EXPIRY_INTERVAL
    ensures r.1.Unprocessable? <==> ValidateRequest(req).Err?
    ensures !r.1.Created? ==> r.0 == t
  {
    match ValidateRequest(req)
    case Err(errors) => (t, Unprocessable(errors))
    case Ok(_) =>
      DecodeAcceptsWellFormed(req.ciphertext);
      DecodeAcceptsWellFormed(req.iv);
      var row := Secret(Decode(req.ciphertext).value, Decode(req.iv).value, createdAt := now, viewsRemaining := 1);
      if dbFails || id in t then (t, CouldNotCreate)
      else (t[id := row], Created(CreateSecretResponse(id)))
  }

  /**
   * `get_secret`: not found when the row is missing, used up or expired, all
   * alike; otherwise one view is taken and the stored bytes are returned
   * re-encoded. A database failure rolls the transaction back.
   */
  function GetStep(t: SecretTable, id: string, now: int, dbFails: bool): (r: (SecretTable, GetOutcome))
    ensures r.1.Found? <==> !dbFails && Retrievable(t, id, now)
    ensures r.1.NotFound? <==> !dbFails && !Retrievable(t, id, now)
    ensures r.1.Found? ==>
      && r.0.Keys == t.Keys
      && r.0[id] == t[id].(viewsRemaining := t[id].viewsRemaining - 1)
      && (forall k | k in t && k != id :: r.0[k] == t[k])
      && r.1.response.ciphertext == Encode(t[id].ciphertext)
      && r.1.response.iv == Encode(t[id].iv)
      && Decode(r.1.response.ciphertext) == Some(t[id].ciphertext)
      && Decode(r.1.response.iv) == Some(t[id].iv)
    ensures !r.1.Found? ==> r.0 == t
  {
    if dbFails then (t, FailedToRetrieve)
    else if id !in t || t[id].viewsRemaining <= 0 || t[id].expiresAt <= now then (t, NotFound)
    else
      var secret := t[id];
      DecodeEncode(secret.ciphertext);
      DecodeEncode(secret.iv);
      (t[id := secret.(viewsRemaining := secret.viewsRemaining - 1)],
       Found(GetSecretResponse(Encode(secret.ciphertext), Encode(secret.iv))))
  }

  /** No row has a negative count, and none more than the one view it was created with. */
  ghost predicate SingleUse(t: SecretTable) {
    forall id | id in t :: 0 <= t[id].viewsRemaining <= 1
  }

  /** The secrets table behind the router, updated in place by the two endpoints. */
  class SecretStore {
    var secrets: SecretTable

    ghost predicate Valid()
      reads this
    {
      SingleUse(secrets)
    }

    constructor ()
      ensures Valid() && secrets == map[]
    {
      secrets := map[];
    }

    method CreateSecret(req: CreateSecretRequest, id: string, now: int, dbFails: bool) returns (outcome: CreateOutcome)
      requires Valid()
      modifies this
      ensures Valid()
      ensures (secrets, outcome) == CreateStep(old(secrets), req, id, now, dbFails)
    {
      var validated := ValidateRequest(req);
      if validated.Err? {
        outcome := Unprocessable(validated.error);
        return;
      }
      DecodeAcceptsWellFormed(req.ciphertext);
      DecodeAcceptsWellFormed(req.iv);
      var ciphertext := Decode(req.ciphertext).value;
      var iv := Decode(req.iv).value;
      var secret := Secret(ciphertext, iv, createdAt := now, viewsRemaining := 1);
      if dbFails || id in secrets {
        outcome := CouldNotCreate;
        return;
      }
      secrets := secrets[id := secret];
      outcome := Created(CreateSecretResponse(id));
    }

    method GetSecret(id: string, now: int, dbFails: bool) returns (outcome: GetOutcome)
      requires Valid()
      modifies this
      ensures Valid()
      ensures (secrets, outcome) == GetStep(old(secrets), id, now, dbFails)
    {
      if dbFails {
        outcome := FailedToRetrieve;
        return;
      }
      if id !in secrets || secrets[id].viewsRemaining <= 0 || secrets[id].expiresAt <= now {
        outcome := NotFound;
        return;
      }
      var secret := secrets[id];
      secrets := secrets[id := secret.(viewsRemaining := secret.viewsRemaining - 1)];
      outcome := Found(GetSecretResponse(Encode(secret.ciphertext), Encode(secret.iv)));
    }
  }

  /*** Properties over sequences of requests ***/

  datatype Call =
    | CreateCall(request: CreateSecretRequest, id: string, now: int, dbFails: bool)
    | GetCall(id: string, now: int, dbFails: bool)

  datatype Reply = CreateReply(create: CreateOutcome) | GetReply(get: GetOutcome)

  function Step(t: SecretTable, c: Call): (SecretTable, Reply) {
    match c
    case CreateCall(req, id, now, dbFails) =>
      var (t', o) := CreateStep(t, req, id, now, dbFails); (t', CreateReply(o))
    case GetCall(id, now, dbFails) =>
      var (t', o) := GetStep(t, id, now, dbFails); (t', GetReply(o))
  }

  /** The table after the calls, one after another, and the reply to each. */
  function Run(t: SecretTable, calls: seq<Call>): (r: (SecretTable, seq<Reply>))
    ensures |r.1| == |calls|
    decreases |calls|
  {
    if |calls| == 0 then (t, [])
    else
      var (t1, reply) := Step(t, calls[0]);
      var (t2, replies) := Run(t1, calls[1..]);
      (t2, [reply] + replies)
  }

  /** How many of the calls were GETs of `id` that returned the envelope. */
  function Retrievals(calls: seq<Call>, replies: seq<Reply>, id: string): nat
    requires |calls| == |replies|
    decreases |calls|
  {
    if |calls| == 0 then 0
    else
      var hit := calls[0].GetCall? && calls[0].id == id && replies[0].GetReply? && replies[0].get.Found?;
      (if hit then 1 else 0) + Retrievals(calls[1..], replies[1..], id)
  }

  /** The views an id still has to give: its count, or the one a create would give it. */
  function Budget(t: SecretTable, id: string): int {
    if id in t then t[id].viewsRemaining else DEFAULT_VIEWS_REMAINING
  }

  ghost predicate NonNegative(t: SecretTable) {
    forall id | id in t :: t[id].viewsRemaining >= 0
  }

  /** One call never raises an id's budget, and a retrieval of it lowers the budget by one; counts stay non-negative. */
  lemma StepWithinBudget(t: SecretTable, c: Call, id: string)
    requires NonNegative(t)
    ensures var (t', reply) := Step(t, c);
      && NonNegative(t')
      && (SingleUse(t) ==> SingleUse(t'))
      && Budget(t', id) + Retrievals([c], [reply], id) <= Budget(t, id)
  {
    var (t', reply) := Step(t, c);
    assert Retrievals([c], [reply], id) == (if c.GetCall? && c.id == id && reply.GetReply? && reply.get.Found? then 1 else 0);
  }

  /** Over any sequence of calls, the retrievals of an id never exceed its budget at the start. */
  lemma {:induction false} RetrievalsWithinBudget(t: SecretTable, calls: seq<Call>, id: string)
    requires NonNegative(t)
    ensures var (t', replies) := Run(t, calls);
      && NonNegative(t')
      && (SingleUse(t) ==> SingleUse(t'))
      && Retrievals(calls, replies, id) + Budget(t', id) <= Budget(t, id)
    decreases |calls|
  {
    if |calls| > 0 {
      var (t1, reply) := Step(t, calls[0]);
      StepWithinBudget(t, calls[0], id);
      RetrievalsWithinBudget(t1, calls[1..], id);
      var (t2, replies) := Run(t1, calls[1..]);
      assert Run(t, calls) == (t2, [reply] + replies);
      assert ([reply] + replies)[1..] == replies;
    }
  }

  /** At most one successful retrieval per id, whatever the calls and from any table reachable by them. */
  lemma AtMostOneRetrieval(t: SecretTable, calls: seq<Call>, id: string)
    requires SingleUse(t)
    ensures Retrievals(calls, Run(t, calls).1, id) <= 1
  {
    RetrievalsWithinBudget(t, calls, id);
  }

  /** Once a row is used up, no later call retrieves it. */
  lemma ConsumedStaysConsumed(t: SecretTable, calls: seq<Call>, id: string)
    requires NonNegative(t) && id in t && t[id].viewsRemaining == 0
    ensures Retrievals(calls, Run(t, calls).1, id) == 0
    ensures id in Run(t, calls).0 && Run(t, calls).0[id].viewsRemaining == 0
  {
    RetrievalsWithinBudget(t, calls, id);
    RowsPersist(t, calls, id);
  }

  /** No call deletes a row. */
  lemma {:induction false} RowsPersist(t: SecretTable, calls: seq<Call>, id: string)
    requires id in t
    ensures id in Run(t, calls).0
    decreases |calls|
  {
    if |calls| > 0 {
      var (t1, reply) := Step(t, calls[0]);
      RowsPersist(t1, calls[1..], id);
    }
  }

  /** A row that was just created is returned once, with the submitted strings when they were canonical, and then not again. */
  lemma CreateThenGetTwice(t: SecretTable, req: CreateSecretRequest, id: string, now: int, later: int, again: int)
    requires CreateStep(t, req, id, now, false).1.Created?
    requires later < now + EXPIRY_INTERVAL
    ensures var t1 := CreateStep(t, req, id, now, false).0;
      var (t2, first) := GetStep(t1, id, later, false);
      && first.Found?
      && Decode(first.response.ciphertext) == Decode(req.ciphertext)
      && Decode(first.response.iv) == Decode(req.iv)
      && (Canonical(req.ciphertext) && Canonical(req.iv) ==> first.response == GetSecretResponse(req.ciphertext, req.iv))
      && GetStep(t2, id, again, false).1 == NotFound
  {
    var t1 := CreateStep(t, req, id, now, false).0;
    var (t2, first) := GetStep(t1, id, later, false);
    if Canonical(req.ciphertext) && Canonical(req.iv) {
      EncodeDecode(req.ciphertext);
      EncodeDecode(req.iv);
    }
  }

  /**
   * A body whose ciphertext carries a '=' past the padding, such as "AAAA=",
   * is answered 422 with a base64 error and leaves the table as it was.
   */
  lemma StrayPadNotStored(t: SecretTable, iv: string, id: string, now: int, dbFails: bool)
    ensures var (t1, created) := CreateStep(t, CreateSecretRequest("AAAA=", iv), id, now, dbFails);
      && t1 == t
      && created.Unprocessable?
      && InvalidBase64(CiphertextField) in created.errors
  {
    StrayPadsRefused();
  }

  /**
   * The table holds bytes, not text: "AB==", whose pad bits are not zero, is
   * accepted and comes back as the canonical "AA==".
   */
  lemma StoredAsBytes(t: SecretTable, id: string, now: int, iv: seq<Byte>)
    requires id !in t && |iv| == AES_GCM_IV_LEN
    ensures var req := CreateSecretRequest("AB==", Encode(iv));
      var (t1, created) := CreateStep(t, req, id, now, false);
      && created.Created?
      && GetStep(t1, id, now, false).1 == Found(GetSecretResponse("AA==", Encode(iv)))
  {
    NonCanonicalAccepted();
    DecodeAcceptsWellFormed("AB==");
    DecodeEncode(iv);
    DecodeAcceptsWellFormed(Encode(iv));
    var req := CreateSecretRequest("AB==", Encode(iv));
    assert ValidateRequest(req).Ok?;
  }
}
