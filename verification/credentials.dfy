/**
 * The credential scheme of create_DB.py: salt generation, salt
 * normalisation, salted hashing and verification.
 *
 * SHA-256 is not modelled; it is the parameter `d`, an arbitrary function
 * whose every output is a 64-character lowercase hexadecimal string (what
 * `hexdigest()` returns). The digest is taken over `salt + password`: UTF-8
 * encoding distributes over concatenation, so hashing the concatenated
 * string and hashing the concatenated encodings are the same thing.
 */
module Credentials {
  import opened Wrappers

  /** Characters a generated salt is drawn from: ASCII letters, then digits. */
  const ALPHABET: string :=
    "abcdefghijklmnopqrstuvwxyzABCDEFGHIJKLMNOPQRSTUVWXYZ0123456789"

  const SALT_LENGTH: nat := 16
  /** Short salts are right-padded with this character. */
  const PAD_CHAR: char := 'a'
  const HEX_DIGITS: string := "0123456789abcdef"
  const DIGEST_LENGTH: nat := 64
  /** Width of the `hashed_password` column, VARCHAR(80). */
  const STORED_HASH_LENGTH: nat := 80

  predicate IsHexDigest(s: string) {
    |s| == DIGEST_LENGTH && forall i | 0 <= i < |s| :: s[i] in HEX_DIGITS
  }

  /** A digest rendered as `hexdigest()` renders it. */
  type HexDigest = s: string | IsHexDigest(s)
    witness seq(DIGEST_LENGTH, _ => '0')

  /** A hex-rendered 256-bit digest function, such as SHA-256 followed by `hexdigest`. */
  type Digest = string -> HexDigest

  function Repeat(c: char, n: nat): (r: string)
    ensures |r| == n
    ensures forall i | 0 <= i < n :: r[i] == c
  {
    seq(n, _ => c)
  }

  /** Python's `s[:n]`: at most the first `n` characters. */
  function Take(s: string, n: nat): (r: string)
    ensures |r| == if |s| < n then |s| else n
    ensures r <= s
  {
    if |s| < n then s else s[..n]
  }

  /** Python's `s[n:]`: what follows the first `n` characters, possibly nothing. */
  function Drop(s: string, n: nat): (r: string)
    ensures Take(s, n) + r == s
  {
    if |s| <= n then [] else s[n..]
  }

  predicate IsGeneratedSalt(s: string) {
    |s| == SALT_LENGTH && forall i | 0 <= i < |s| :: s[i] in ALPHABET
  }

  /**
   * `generate_salt`: sixteen independent draws from ALPHABET. The draws are
   * the parameter `picks`, one index into ALPHABET per character, as
   * `random.choice` makes them.
   */
  function GenerateSalt(picks: seq<nat>): (salt: string)
    requires |picks| == SALT_LENGTH
    requires forall i | 0 <= i < |picks| :: picks[i] < |ALPHABET|
    ensures IsGeneratedSalt(salt)
    ensures forall i | 0 <= i < SALT_LENGTH :: salt[i] == ALPHABET[picks[i]]
  {
    seq(SALT_LENGTH, i requires 0 <= i < SALT_LENGTH => ALPHABET[picks[i]])
  }

  /** Brings any salt to exactly SALT_LENGTH characters. */
  function NormalizeSalt(salt: string): (r: string)
    ensures |r| == SALT_LENGTH
    ensures |salt| <= SALT_LENGTH ==> salt <= r
    ensures forall i | |salt| <= i < SALT_LENGTH :: r[i] == PAD_CHAR
    ensures SALT_LENGTH <= |salt| ==> r <= salt
  {
    if |salt| < SALT_LENGTH then salt + Repeat(PAD_CHAR, SALT_LENGTH - |salt|)
    else if |salt| > SALT_LENGTH then salt[..SALT_LENGTH]
    else salt
  }

  /** `hash_password(password, salt)` for a given salt. */
  function HashWithSalt(d: Digest, password: string, salt: string): (hashed: string)
  {
    var s := NormalizeSalt(salt);
    s + d(s + password)
  }

  /**
   * `hash_password(password, salt=None)`: an omitted salt is replaced by
   * `generated`, the value `generate_salt` returned for this call.
   */
  function HashPassword(d: Digest, password: string, salt: Option<string>, generated: string): (hashed: string)
    ensures |hashed| == STORED_HASH_LENGTH
    ensures hashed[..SALT_LENGTH] == NormalizeSalt(salt.GetOr(generated))
    ensures IsHexDigest(hashed[SALT_LENGTH..])
  {
    HashWithSalt(d, password, salt.GetOr(generated))
  }

  /** `check_password(candidate, hashed)`. */
  function CheckPassword(d: Digest, candidate: string, hashed: string): (ok: bool)
    ensures ok <==> SALT_LENGTH < |hashed| && d(hashed[..SALT_LENGTH] + candidate) == hashed[SALT_LENGTH..]
  {
    var salt := Take(hashed, SALT_LENGTH);
    var expected := Drop(hashed, SALT_LENGTH);
    Drop(HashWithSalt(d, candidate, salt), SALT_LENGTH) == expected
  }

  /** Normalising twice is normalising once. */
  lemma NormalizeIdempotent(salt: string)
    ensures NormalizeSalt(NormalizeSalt(salt)) == NormalizeSalt(salt)
  {
  }

  /** A salt of exactly SALT_LENGTH characters is used unchanged. */
  lemma NormalizeKeepsFullSalt(salt: string)
    requires |salt| == SALT_LENGTH
    ensures NormalizeSalt(salt) == salt
  {
  }

  /** Hashing with a short salt is hashing with that salt padded by `'a'`. */
  lemma ShortSaltIsPadded(d: Digest, password: string, salt: string)
    requires |salt| < SALT_LENGTH
    ensures HashWithSalt(d, password, salt)
         == HashWithSalt(d, password, salt + Repeat(PAD_CHAR, SALT_LENGTH - |salt|))
  {
    NormalizeIdempotent(salt);
  }

  /** Hashing with a long salt is hashing with its first SALT_LENGTH characters. */
  lemma LongSaltIsTruncated(d: Digest, password: string, salt: string)
    requires SALT_LENGTH < |salt|
    ensures HashWithSalt(d, password, salt) == HashWithSalt(d, password, salt[..SALT_LENGTH])
  {
  }

  /**
   * The stored string is the normalised salt followed by the digest of the
   * normalised salt and the password: 80 characters, the column's width.
   */
  lemma HashLayout(d: Digest, password: string, salt: Option<string>, generated: string)
    ensures var hashed := HashPassword(d, password, salt, generated);
            var s := NormalizeSalt(salt.GetOr(generated));
            && |hashed| == STORED_HASH_LENGTH
            && hashed[..SALT_LENGTH] == s
            && hashed[SALT_LENGTH..] == d(s + password)
  {
  }

  /** With `salt=None` a generated salt is stored verbatim as the prefix. */
  lemma GeneratedSaltIsPrefix(d: Digest, password: string, generated: string)
    requires IsGeneratedSalt(generated)
    ensures HashPassword(d, password, None, generated)[..SALT_LENGTH] == generated
  {
  }

  /** Verify-after-hash: a password always checks against its own hash, whatever the salt. */
  lemma HashThenCheck(d: Digest, password: string, salt: Option<string>, generated: string)
    ensures CheckPassword(d, password, HashPassword(d, password, salt, generated))
  {
    HashLayout(d, password, salt, generated);
  }

  /**
   * Another candidate checks against a hash exactly when its digest under
   * the same salt collides with the original password's.
   */
  lemma CheckOtherCandidate(d: Digest, password: string, candidate: string, salt: string)
    ensures var s := NormalizeSalt(salt);
            CheckPassword(d, candidate, HashWithSalt(d, password, salt))
            <==> d(s + candidate) == d(s + password)
  {
    var s := NormalizeSalt(salt);
    var hashed := HashWithSalt(d, password, salt);
    assert hashed[..SALT_LENGTH] == s;
    assert hashed[SALT_LENGTH..] == d(s + password);
  }

  /** A stored string of SALT_LENGTH characters or fewer never verifies. */
  lemma ShortStoredHashNeverChecks(d: Digest, candidate: string, hashed: string)
    requires |hashed| <= SALT_LENGTH
    ensures !CheckPassword(d, candidate, hashed)
  {
  }
}
