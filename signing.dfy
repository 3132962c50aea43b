/**
 * The collaborators the account views call but whose code is not part of this model:
 * the Fernet cipher behind utils/encryption_decryption.py, the HMAC of Django's
 * TimestampSigner, and Django's password hasher.  They are passed in as functions, and
 * what the flow relies on about them is stated once, as `Env.Sound()`.
 */
module Signing {
  import opened Wrappers

  datatype Env = Env(
    /** `encryption(data, KEY_EMAIL)`: Fernet encryption, then base64url (section 5 of RFC 4648). */
    encrypt: string -> string,
    /** `decryption(data, KEY_EMAIL)`; None where base64 decoding or Fernet's check fails. */
    decrypt: string -> Option<string>,
    /** The signer's keyed signature of `value:timestamp` under the site secret. */
    signature: (string, int) -> string,
    /** `set_password`: the encoded hash stored in the password column. */
    makePassword: string -> string,
    /** `check_password(raw, encoded)`. */
    checkPassword: (string, string) -> bool,
    /** `AbstractBaseUser.normalize_username`: NFKC normalisation of a username. */
    normalizeUsername: string -> string,
    /** `BaseUserManager.normalize_email`: the domain part lower-cased. */
    normalizeEmail: string -> string)
  {
    /** Decryption undoes encryption, and a password checks against its own hash. */
    ghost predicate Sound() {
      && (forall s :: decrypt(encrypt(s)) == Some(s))
      && (forall p :: checkPassword(p, makePassword(p)))
    }
  }

  /** What `TimestampSigner.sign` produces: the value, the (whole-second) issue time and the signature of both. */
  datatype SignedToken = SignedToken(value: string, timestamp: int, signature: string)

  /** The outcomes of `TimestampSigner.unsign`: the value, or one of its two exceptions. */
  datatype Unsigned = Unsigned(value: string) | BadSignature | SignatureExpired

  /** `signer.sign(value)` at clock time `now` (seconds); the stamp is `int(time.time())`. */
  function Sign(env: Env, value: string, now: real): (t: SignedToken)
    requires now >= 0.0
    ensures t.value == value
    ensures now - 1.0 < t.timestamp as real <= now
    ensures t.signature == env.signature(value, t.timestamp)
  {
    SignedToken(value, now.Floor, env.signature(value, now.Floor))
  }

  /**
   * `signer.unsign(t, max_age=maxAge)` at clock time `now`: the signature is checked
   * first, and only a correctly signed token can be reported as expired.
   */
  function Unsign(env: Env, t: SignedToken, maxAge: int, now: real): (r: Unsigned)
    ensures r.Unsigned? ==> r.value == t.value
    ensures !r.BadSignature? ==> t.signature == env.signature(t.value, t.timestamp)
    ensures r.Unsigned? <==> !r.BadSignature? && now - t.timestamp as real <= maxAge as real
  {
    if t.signature != env.signature(t.value, t.timestamp) then BadSignature
    else if now - t.timestamp as real > maxAge as real then SignatureExpired
    else Unsigned(t.value)
  }

  /** A token the signer issued yields its value back exactly while its age is at most `maxAge`. */
  lemma UnsignSign(env: Env, value: string, issued: real, maxAge: int, now: real)
    requires issued >= 0.0
    ensures var t := Sign(env, value, issued);
      Unsign(env, t, maxAge, now) ==
        if now - t.timestamp as real > maxAge as real then SignatureExpired else Unsigned(value)
  {
  }

  /** Verified less than a second before the window ends, an issued token is still good. */
  lemma FreshTokenAccepted(env: Env, value: string, issued: real, maxAge: int, now: real)
    requires issued >= 0.0
    requires now <= issued + maxAge as real - 1.0
    ensures Unsign(env, Sign(env, value, issued), maxAge, now) == Unsigned(value)
  {
  }

  /** Verified after the window, an issued token is expired (whatever its fractional stamp). */
  lemma LateTokenExpired(env: Env, value: string, issued: real, maxAge: int, now: real)
    requires issued >= 0.0
    requires now > issued + maxAge as real
    ensures Unsign(env, Sign(env, value, issued), maxAge, now) == SignatureExpired
  {
  }

  /** A token whose signature does not match is refused as bad, at any time, never as expired. */
  lemma TamperedTokenRefused(env: Env, t: SignedToken, maxAge: int, now: real)
    requires t.signature != env.signature(t.value, t.timestamp)
    ensures Unsign(env, t, maxAge, now) == BadSignature
  {
  }
}
