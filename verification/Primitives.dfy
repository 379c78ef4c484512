/** The foreign library code the repository calls: SHA3-256, HKDF-SHA3-256, AES-256-GCM-SIV and
  * Unicode NFC.  They are values of function type, so that every theorem holds for all of them
  * that obey `Lawful`.  Nothing here says that a hash has no collisions. */
module Primitives {
  import opened Results
  import opened ByteStrings

  type Digest = b: Bytes | |b| == 32 witness Zeros(32)
  type Key = b: Bytes | |b| == 32 witness Zeros(32)
  type Nonce = b: Bytes | |b| == 12 witness Zeros(12)
  type Salt = b: Bytes | |b| == 16 witness Zeros(16)
  type Material = b: Bytes | |b| == 64 witness Zeros(64)

  const TAG_LEN := 16

  datatype Library = Library(
    sha3: Bytes -> Digest,
    hkdf: (Bytes, Salt, Bytes) -> Material,  // master secret, salt, info
    encrypt: (Key, Nonce, Bytes, Bytes) -> Bytes,  // key, nonce, plaintext, associated data
    decrypt: (Key, Nonce, Bytes, Bytes) -> Option<Bytes>,  // key, nonce, ciphertext, associated data
    nfc: string -> string)

  /** The ciphertext is the plaintext's length plus the tag's (RFC 8452, section 4). */
  ghost predicate TagExpands(f: Library) {
    forall k, n, m, a :: |f.encrypt(k, n, m, a)| == |m| + TAG_LEN
  }

  /** Decryption undoes encryption, and yields a plaintext only when encrypting that plaintext again
    * gives the same ciphertext and tag (RFC 8452, section 5). */
  ghost predicate DecryptInverts(f: Library) {
    forall k, n, c, m, a :: f.decrypt(k, n, c, a) == Some(m) <==> f.encrypt(k, n, m, a) == c
  }

  /** Normalising twice is normalising once (Unicode Standard, section 3.11). */
  ghost predicate Idempotent(f: Library) {
    forall s :: f.nfc(f.nfc(s)) == f.nfc(s)
  }

  ghost predicate Lawful(f: Library) {
    TagExpands(f) && DecryptInverts(f) && Idempotent(f)
  }

  type Lib = f: Library | Lawful(f) witness Toy()

  function Zeros(n: nat): (b: Bytes)
    ensures |b| == n
  {
    seq(n, _ => 0)
  }

  function ToyDecrypt(k: Key, n: Nonce, c: Bytes, a: Bytes): Option<Bytes> {
    if |c| >= TAG_LEN && c[|c| - TAG_LEN..] == Zeros(TAG_LEN) then Some(c[..|c| - TAG_LEN]) else None
  }

  /** The laws can all be met at once: a library that hashes everything to zeros and appends a zero tag. */
  function Toy(): (f: Library)
    ensures Lawful(f)
  {
    var f := Library(
      (_: Bytes) => Zeros(32),
      (_: Bytes, _: Salt, _: Bytes) => Zeros(64),
      (k: Key, n: Nonce, m: Bytes, a: Bytes) => m + Zeros(TAG_LEN),
      ToyDecrypt,
      (s: string) => s);
    assert DecryptInverts(f) by {
      forall k, n, c: Bytes, m: Bytes, a
        ensures f.decrypt(k, n, c, a) == Some(m) <==> f.encrypt(k, n, m, a) == c
      {
        if f.decrypt(k, n, c, a) == Some(m) {
          assert c == c[..|c| - TAG_LEN] + c[|c| - TAG_LEN..];
        }
      }
    }
    f
  }

  lemma Decrypts(f: Lib, k: Key, n: Nonce, c: Bytes, m: Bytes, a: Bytes)
    ensures f.decrypt(k, n, c, a) == Some(m) <==> f.encrypt(k, n, m, a) == c
  {
    assert DecryptInverts(f);
  }

  lemma TagLength(f: Lib, k: Key, n: Nonce, m: Bytes, a: Bytes)
    ensures |f.encrypt(k, n, m, a)| == |m| + TAG_LEN
  {
    assert TagExpands(f);
  }

  // Explicit collisions.  The binding theorems hand one of these back where a proof from
  // collision resistance would stop.

  datatype KdfInput = KdfInput(secret: Bytes, salt: Salt, info: Bytes)

  datatype Collision =
    | HashCollision(x: Bytes, y: Bytes)
    | CommittedHalfCollision(u: KdfInput, v: KdfInput)

  function CommittedHalf(f: Lib, u: KdfInput): Key {
    f.hkdf(u.secret, u.salt, u.info)[32..]
  }

  /** Two different inputs with one output: of SHA3-256, or of the committed half of HKDF. */
  predicate IsCollision(f: Lib, c: Collision) {
    match c
    case HashCollision(x, y) => x != y && f.sha3(x) == f.sha3(y)
    case CommittedHalfCollision(u, v) => u != v && CommittedHalf(f, u) == CommittedHalf(f, v)
  }
}
