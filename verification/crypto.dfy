/** Password hashing, as the application uses it (app_corrigido.py, lines 17-21).

    The application hands passwords to bcrypt: `hashpw(password, gensalt())`
    produces a digest with the salt embedded in it, and `checkpw(typed, digest)`
    decides whether a typed password matches a stored digest. bcrypt itself is
    not modelled: a `Hasher` is any pair of such functions, and the one property
    the application relies on — a password always matches its own digest,
    whatever salt was drawn — is the predicate `Sound`. The random salt is an
    explicit argument.
 */
module Crypto {

  /** The random salt `gensalt()` draws. */
  type Salt = nat

  /** A hash function and its checking function. */
  datatype Hasher = Hasher(hash: (string, Salt) -> string, check: (string, string) -> bool)

  /** Checking a password against a digest of that same password succeeds. */
  ghost predicate Sound(h: Hasher)
  {
    forall password, salt :: h.check(password, h.hash(password, salt))
  }

  /** `hash_senha`: the digest that is stored in place of the password. */
  function HashPassword(h: Hasher, password: string, salt: Salt): (digest: string)
    ensures Sound(h) ==> VerifyPassword(h, password, digest)
  {
    h.hash(password, salt)
  }

  /** `verificar_senha`: does the typed password match the stored digest? */
  function VerifyPassword(h: Hasher, typed: string, digest: string): (ok: bool)
    ensures Sound(h) && (exists salt :: digest == h.hash(typed, salt)) ==> ok
  {
    h.check(typed, digest)
  }
}
