/**
 * The `secrets` table (backend/app/models/secret.py): one row per id, with its
 * column defaults. Time is whole seconds on one clock shared by the database
 * and the router.
 */
module SecretModel {
  import opened Base64

  /** `views_remaining` when the insert does not give it. */
  const DEFAULT_VIEWS_REMAINING: int := 1

  /** `expires_at` defaults to `now() + interval '1 hour'`. */
  const EXPIRY_INTERVAL: int := 3600

  /** A row; `created_at` is the insert time and the two defaults apply when a value is left out. */
  datatype Secret = Secret(
    ciphertext: seq<Byte>,
    iv: seq<Byte>,
    createdAt: int,
    viewsRemaining: int := DEFAULT_VIEWS_REMAINING,
    expiresAt: int := createdAt + EXPIRY_INTERVAL)

  /** The table keyed by its primary key `id`: a map cannot hold two rows for one id. */
  type SecretTable = map<string, Secret>
}
