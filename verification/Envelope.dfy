/** The sealed envelope: key derivation, associated data, print and parse, seal and unseal. */
module Envelope {
  import opened Results
  import opened ByteStrings
  import opened Primitives

  const MAGIC: Bytes := Ascii("SCE4")
  const VERSION: byte := 4
  const DOMAIN: Bytes := Ascii("LDDP-SCE-v4")
  const COMMIT_LABEL: Bytes := Ascii("|commit|")
  const HEADER_LABEL: Bytes := Ascii("|hdr|")
  const KDF_INFO_PREFIX: Bytes := Ascii("LDDP-SCE|kdf-v4|")
  const KDF_CANON_TAG: Bytes := Ascii("LDDP-SCE|kdf-canon-v4")
  const HEADER_LEN := 65
  const FRAMED_LEN := HEADER_LEN + 4
  const ENVELOPE_OVERHEAD := FRAMED_LEN + TAG_LEN
  const MAX_STATE := U32_LIMIT - 1 - TAG_LEN
  const MAX_LP_FIELD := U32_LIMIT - 1

  /** What a seal is bound to: the secret, the manifest's fingerprint, the epoch and the context. */
  datatype Binding = Binding(secret: Bytes, memh: Digest, epoch: int, context: Bytes)

  /** What `os.urandom` hands to one seal. */
  datatype Draw = Draw(salt: Salt, nonce: Nonce)

  datatype KeyMaterial = KeyMaterial(key: Key, commitment: Digest)

  datatype Parsed = Parsed(prefix: Bytes, nonce: Nonce, salt: Salt, commitment: Digest, ciphertext: Bytes)

  predicate ValidEpoch(epoch: int) {
    0 <= epoch < U64_LIMIT
  }

  /** The bindings no entry point refuses. */
  predicate Usable(b: Binding) {
    |b.secret| >= 16 && ValidEpoch(b.epoch) && |b.context| <= MAX_LP_FIELD
  }

  // Key derivation

  function KdfCanonical(context: Bytes, epoch: u64, memh: Digest): Bytes {
    KDF_CANON_TAG + Lp(context) + Lp(BigEndian(epoch, 8)) + Lp(memh)
  }

  /** The info string; only the context can be too long for its length prefix. */
  function KdfInfo(f: Lib, context: Bytes, epoch: u64, memh: Digest): Result<Bytes> {
    if |context| > MAX_LP_FIELD then Err(SceError)
    else Ok(KDF_INFO_PREFIX + f.sha3(KdfCanonical(context, epoch, memh)))
  }

  function CommitInput(half: Bytes): Bytes {
    DOMAIN + COMMIT_LABEL + half
  }

  function DeriveKeyMaterial(f: Lib, secret: Bytes, memh: Digest, epoch: u64, context: Bytes, salt: Salt)
    : Result<KeyMaterial>
  {
    if |secret| < 16 then Err(SceError)
    else
      var info :- KdfInfo(f, context, epoch, memh);
      var material := f.hkdf(secret, salt, info);
      Ok(KeyMaterial(material[..32], f.sha3(CommitInput(material[32..]))))
  }

  function Aad(prefix: Bytes, memh: Digest, epoch: u64): Bytes {
    DOMAIN + HEADER_LABEL + prefix + memh + BigEndian(epoch, 8)
  }

  // Seal and unseal

  function HeaderPrefix(nonce: Nonce, salt: Salt, commitment: Digest): (b: Bytes)
    ensures |b| == HEADER_LEN
  {
    MAGIC + [VERSION] + nonce + salt + commitment
  }

  function SealState(f: Lib, state: Bytes, b: Binding, d: Draw): Result<Bytes> {
    if |state| > MAX_STATE then Err(SceError)
    else if |b.context| > MAX_LP_FIELD then Err(SceError)
    else if !ValidEpoch(b.epoch) then Err(SceError)
    else
      var km :- DeriveKeyMaterial(f, b.secret, b.memh, b.epoch, b.context, d.salt);
      var prefix := HeaderPrefix(d.nonce, d.salt, km.commitment);
      var ciphertext := f.encrypt(km.key, d.nonce, state, Aad(prefix, b.memh, b.epoch));
      Ok(prefix + BigEndian(|ciphertext|, 4) + ciphertext)
  }

  function Parse(e: Bytes): Result<Parsed> {
    if |e| < FRAMED_LEN then Err(MalformedEnvelope)
    else if e[..4] != MAGIC then Err(MalformedEnvelope)
    else if e[4] != VERSION then Err(MalformedEnvelope)
    else
      var ciphertext := e[FRAMED_LEN..];
      if |ciphertext| != FromBigEndian(e[HEADER_LEN..FRAMED_LEN]) then Err(MalformedEnvelope)
      else if |ciphertext| < TAG_LEN then Err(MalformedEnvelope)
      else Ok(Parsed(e[..HEADER_LEN], e[5..17], e[17..33], e[33..65], ciphertext))
  }

  function UnsealState(f: Lib, e: Bytes, b: Binding): Result<Bytes> {
    if |b.context| > MAX_LP_FIELD then Err(SceError)
    else if !ValidEpoch(b.epoch) then Err(SceError)
    else
      var q :- Parse(e);
      var km :- DeriveKeyMaterial(f, b.secret, b.memh, b.epoch, b.context, q.salt);
      var plaintext := f.decrypt(km.key, q.nonce, q.ciphertext, Aad(q.prefix, b.memh, b.epoch));
      if q.commitment == km.commitment && plaintext.Some? then Ok(plaintext.value)
      else Err(StateSealMismatch)
  }

  // The wire format

  /** The constants are those of the specification's normative block. */
  lemma ConstantsAreNormative()
    ensures MAGIC == [0x53, 0x43, 0x45, 0x34] && VERSION == 0x04
    ensures MAX_STATE == 4294967279 && MAX_LP_FIELD == 4294967295
    ensures HEADER_LEN == 65 && FRAMED_LEN == 69 && TAG_LEN == 16 && ENVELOPE_OVERHEAD == 85
    ensures DOMAIN == [0x4c, 0x44, 0x44, 0x50, 0x2d, 0x53, 0x43, 0x45, 0x2d, 0x76, 0x34]
    ensures COMMIT_LABEL == [0x7c, 0x63, 0x6f, 0x6d, 0x6d, 0x69, 0x74, 0x7c]
    ensures HEADER_LABEL == [0x7c, 0x68, 0x64, 0x72, 0x7c]
    ensures KDF_INFO_PREFIX == [0x4c, 0x44, 0x44, 0x50, 0x2d, 0x53, 0x43, 0x45, 0x7c, 0x6b, 0x64, 0x66, 0x2d, 0x76,
                                0x34, 0x7c]
    ensures KDF_CANON_TAG == [0x4c, 0x44, 0x44, 0x50, 0x2d, 0x53, 0x43, 0x45, 0x7c, 0x6b, 0x64, 0x66, 0x2d, 0x63,
                              0x61, 0x6e, 0x6f, 0x6e, 0x2d, 0x76, 0x34]
  {
  }

  /** The header prefix gives up its fields at the documented offsets. */
  lemma HeaderLayout(nonce: Nonce, salt: Salt, commitment: Digest, rest: Bytes)
    ensures var e := HeaderPrefix(nonce, salt, commitment) + rest;
            && e[..4] == MAGIC && e[4] == VERSION
            && e[5..17] == nonce && e[17..33] == salt && e[33..65] == commitment
            && e[..HEADER_LEN] == HeaderPrefix(nonce, salt, commitment) && e[HEADER_LEN..] == rest
  {
  }

  /** What one parsed envelope prints as. */
  function Print(q: Parsed): Bytes {
    HeaderPrefix(q.nonce, q.salt, q.commitment) + BigEndian(|q.ciphertext|, 4) + q.ciphertext
  }

  /** Parsing and printing are mutual inverses: `e` parses to `q` exactly when `q` prints as `e`. */
  lemma ParseIffPrint(e: Bytes, q: Parsed)
    ensures Parse(e) == Ok(q) <==>
            && TAG_LEN <= |q.ciphertext| < U32_LIMIT
            && q.prefix == HeaderPrefix(q.nonce, q.salt, q.commitment)
            && e == Print(q)
  {
    if Parse(e) == Ok(q) {
      ReadU32(e[HEADER_LEN..FRAMED_LEN]);
      JoinOne(e, 4);
      Join(e, 0, 5, 17);
      Join(e, 0, 17, 33);
      Join(e, 0, 33, 65);
      assert e == e[..HEADER_LEN] + e[HEADER_LEN..FRAMED_LEN] + e[FRAMED_LEN..];
    } else if TAG_LEN <= |q.ciphertext| < U32_LIMIT && e == Print(q) {
      U32RoundTrip(|q.ciphertext|);
      var framed := BigEndian(|q.ciphertext|, 4) + q.ciphertext;
      assert e == HeaderPrefix(q.nonce, q.salt, q.commitment) + framed;
      HeaderLayout(q.nonce, q.salt, q.commitment, framed);
      assert framed[..4] == e[HEADER_LEN..FRAMED_LEN] && framed[4..] == e[FRAMED_LEN..];
    }
  }

  /** Framing is exact: which byte strings parse, read off the bytes alone. */
  lemma ParseIffFramed(e: Bytes)
    ensures Parse(e).Ok? <==>
            && ENVELOPE_OVERHEAD <= |e| < FRAMED_LEN + U32_LIMIT
            && e[..4] == MAGIC && e[4] == VERSION
            && e[HEADER_LEN..FRAMED_LEN] == BigEndian(|e| - FRAMED_LEN, 4)
    ensures Parse(e).Err? ==> Parse(e).error == MalformedEnvelope
  {
    if FRAMED_LEN <= |e| {
      var n, b := |e| - FRAMED_LEN, e[HEADER_LEN..FRAMED_LEN];
      LengthField(n, b);
      assert Parse(e).Ok? <==> e[..4] == MAGIC && e[4] == VERSION && FromBigEndian(b) == n && n >= TAG_LEN;
    }
  }

  lemma LengthField(n: nat, b: Bytes)
    requires |b| == 4
    ensures FromBigEndian(b) == n <==> n < U32_LIMIT && b == BigEndian(n, 4)
  {
    ReadU32(b);
    if n < U32_LIMIT {
      U32Field(n, b);
    }
  }

  /** No accepted string is a proper prefix of another. */
  lemma ParsePrefixFree(e: Bytes, rest: Bytes)
    requires Parse(e).Ok? && Parse(e + rest).Ok?
    ensures rest == []
  {
    assert (e + rest)[HEADER_LEN..FRAMED_LEN] == e[HEADER_LEN..FRAMED_LEN];
  }

  // Key derivation and sealing, in full

  /** The key is the first half of the HKDF output, the commitment the labelled hash of the second, and the info the
    * prefixed hash of the three fields, each behind its length. */
  lemma KeyMaterialIs(f: Lib, secret: Bytes, memh: Digest, epoch: u64, context: Bytes, salt: Salt)
    requires |secret| >= 16 && |context| <= 4294967295
    ensures var canonical := Ascii("LDDP-SCE|kdf-canon-v4") + (BigEndian(|context|, 4) + context)
                             + (BigEndian(8, 4) + BigEndian(epoch, 8)) + (BigEndian(32, 4) + memh);
            var material := f.hkdf(secret, salt, Ascii("LDDP-SCE|kdf-v4|") + f.sha3(canonical));
            DeriveKeyMaterial(f, secret, memh, epoch, context, salt) ==
            Ok(KeyMaterial(material[..32], f.sha3(Ascii("LDDP-SCE-v4") + Ascii("|commit|") + material[32..])))
  {
  }

  /** Every outcome of opening an envelope that is not a plaintext: the library's own error for a context, epoch or
    * secret it does not take, malformed for bytes that are no envelope, and the mismatch for everything else. */
  lemma UnsealClasses(f: Lib, e: Bytes, b: Binding)
    ensures var taken := |b.context| <= 4294967295 && 0 <= b.epoch < 0x1_0000_0000_0000_0000;
            var r := UnsealState(f, e, b);
            && (r == Err(SceError) <==> !taken || (Parse(e).Ok? && |b.secret| < 16))
            && (r == Err(MalformedEnvelope) <==> taken && Parse(e).Err?)
            && r != Err(NativeError)
            && (r == Err(StateSealMismatch) <==>
                 taken && Parse(e).Ok? && |b.secret| >= 16 && !r.Ok?)
  {
    ParseIffFramed(e);
  }

  // Seal and unseal undo each other

  lemma SealSucceedsIff(f: Lib, state: Bytes, b: Binding, d: Draw)
    ensures SealState(f, state, b, d).Ok? <==> Usable(b) && |state| <= MAX_STATE
    ensures SealState(f, state, b, d).Ok? <==>
            && |b.secret| >= 16 && 0 <= b.epoch < 0x1_0000_0000_0000_0000
            && |b.context| <= 4294967295 && |state| <= 4294967279
    ensures SealState(f, state, b, d).Err? ==> SealState(f, state, b, d).error == SceError
    ensures SealState(f, state, b, d).Ok? ==> |SealState(f, state, b, d).value| == ENVELOPE_OVERHEAD + |state|
  {
    if Usable(b) && |state| <= MAX_STATE {
      var km := DeriveKeyMaterial(f, b.secret, b.memh, b.epoch, b.context, d.salt).value;
      TagLength(f, km.key, d.nonce, state, Aad(HeaderPrefix(d.nonce, d.salt, km.commitment), b.memh, b.epoch));
    }
  }

  /** The draw an envelope's cleartext header records. */
  function DrawOf(e: Bytes): Draw
    requires |e| >= HEADER_LEN
  {
    Draw(e[17..33], e[5..17])
  }

  /** An envelope opens to `m` exactly when sealing `m` with that envelope's own salt and nonce
    * prints it, byte for byte. */
  lemma UnsealIffSealed(f: Lib, e: Bytes, b: Binding, m: Bytes)
    ensures UnsealState(f, e, b) == Ok(m) <==> |e| >= HEADER_LEN && SealState(f, m, b, DrawOf(e)) == Ok(e)
  {
    if Usable(b) && |e| >= HEADER_LEN {
      var d := DrawOf(e);
      var km := DeriveKeyMaterial(f, b.secret, b.memh, b.epoch, b.context, d.salt).value;
      var aad := Aad(HeaderPrefix(d.nonce, d.salt, km.commitment), b.memh, b.epoch);
      var c := f.encrypt(km.key, d.nonce, m, aad);
      TagLength(f, km.key, d.nonce, m, aad);
      var q := Parsed(HeaderPrefix(d.nonce, d.salt, km.commitment), d.nonce, d.salt, km.commitment, c);
      if UnsealState(f, e, b) == Ok(m) {
        var parsed := Parse(e).value;
        ParseIffPrint(e, parsed);
        Decrypts(f, km.key, d.nonce, parsed.ciphertext, m, aad);
      } else if SealState(f, m, b, d) == Ok(e) {
        ParseIffPrint(e, q);
        Decrypts(f, km.key, d.nonce, c, m, aad);
      }
    }
  }

  /** Sealing then unsealing under the same binding is the identity, for every draw. */
  lemma SealRoundTrip(f: Lib, state: Bytes, b: Binding, d: Draw)
    requires SealState(f, state, b, d).Ok?
    ensures DrawOf(SealState(f, state, b, d).value) == d
    ensures UnsealState(f, SealState(f, state, b, d).value, b) == Ok(state)
  {
    var e := SealState(f, state, b, d).value;
    var km := DeriveKeyMaterial(f, b.secret, b.memh, b.epoch, b.context, d.salt).value;
    HeaderLayout(d.nonce, d.salt, km.commitment, e[HEADER_LEN..]);
    UnsealIffSealed(f, e, b, state);
  }

  /** A sealed envelope has its fields at the documented offsets, and what it encrypts is the state, authenticated
    * together with the very header bytes it prints, the fingerprint and the epoch. */
  lemma SealedLayout(f: Lib, state: Bytes, b: Binding, d: Draw)
    requires SealState(f, state, b, d).Ok?
    ensures ValidEpoch(b.epoch) && DeriveKeyMaterial(f, b.secret, b.memh, b.epoch, b.context, d.salt).Ok?
    ensures var e := SealState(f, state, b, d).value;
            var km := DeriveKeyMaterial(f, b.secret, b.memh, b.epoch, b.context, d.salt).value;
            && |e| >= FRAMED_LEN
            && e[..4] == MAGIC && e[4] == VERSION && e[5..17] == d.nonce && e[17..33] == d.salt
            && e[33..65] == km.commitment && e[65..69] == BigEndian(|e| - FRAMED_LEN, 4)
            && e[69..] ==
               f.encrypt(km.key, d.nonce, state, DOMAIN + HEADER_LABEL + e[..65] + b.memh + BigEndian(b.epoch, 8))
  {
    var e := SealState(f, state, b, d).value;
    var km := DeriveKeyMaterial(f, b.secret, b.memh, b.epoch, b.context, d.salt).value;
    HeaderLayout(d.nonce, d.salt, km.commitment, e[HEADER_LEN..]);
    assert e == HeaderPrefix(d.nonce, d.salt, km.commitment) + e[HEADER_LEN..];
  }
}
