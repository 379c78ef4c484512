/** Key commitment, by reduction: two bindings that share a commitment are equal, or they give an
  * explicit collision.  No cryptographic assumption is made. */
module Commitment {
  import opened Results
  import opened ByteStrings
  import opened Primitives
  import opened Envelope

  /** The length-prefixed string that is hashed into the info is injective in its three fields. */
  lemma KdfCanonicalInjective(c1: Bytes, e1: u64, m1: Digest, c2: Bytes, e2: u64, m2: Digest)
    requires |c1| <= MAX_LP_FIELD && |c2| <= MAX_LP_FIELD
    requires KdfCanonical(c1, e1, m1) == KdfCanonical(c2, e2, m2)
    ensures c1 == c2 && e1 == e2 && m1 == m2
  {
    var t1, t2 := Lp(BigEndian(e1, 8)) + Lp(m1), Lp(BigEndian(e2, 8)) + Lp(m2);
    assert KdfCanonical(c1, e1, m1) == KDF_CANON_TAG + (Lp(c1) + t1);
    assert KdfCanonical(c2, e2, m2) == KDF_CANON_TAG + (Lp(c2) + t2);
    Split(KDF_CANON_TAG, Lp(c1) + t1, KDF_CANON_TAG, Lp(c2) + t2);
    LpSplit(c1, t1, c2, t2);
    LpSplit(BigEndian(e1, 8), Lp(m1), BigEndian(e2, 8), Lp(m2));
    U64Injective(e1, e2);
    assert Lp(m1) + [] == Lp(m2) + [];
    LpSplit(m1, [], m2, []);
  }

  /** The associated data is injective although nothing in it is length-prefixed: every field is fixed-width. */
  lemma AadInjective(p1: Bytes, m1: Digest, e1: u64, p2: Bytes, m2: Digest, e2: u64)
    requires |p1| == |p2| == HEADER_LEN
    requires Aad(p1, m1, e1) == Aad(p2, m2, e2)
    ensures p1 == p2 && m1 == m2 && e1 == e2
  {
    var h := DOMAIN + HEADER_LABEL;
    assert h + (p1 + (m1 + BigEndian(e1, 8))) == Aad(p1, m1, e1) == Aad(p2, m2, e2)
        == h + (p2 + (m2 + BigEndian(e2, 8)));
    Split(h, p1 + (m1 + BigEndian(e1, 8)), h, p2 + (m2 + BigEndian(e2, 8)));
    Split(p1, m1 + BigEndian(e1, 8), p2, m2 + BigEndian(e2, 8));
    Split(m1, BigEndian(e1, 8), m2, BigEndian(e2, 8));
    U64Injective(e1, e2);
  }

  function CanonicalOf(b: Binding): Bytes
    requires Usable(b)
  {
    KdfCanonical(b.context, b.epoch, b.memh)
  }

  function KdfInputOf(f: Lib, b: Binding, salt: Salt): KdfInput
    requires Usable(b)
  {
    KdfInput(b.secret, salt, KDF_INFO_PREFIX + f.sha3(CanonicalOf(b)))
  }

  function MaterialOf(f: Lib, b: Binding, salt: Salt): (km: KeyMaterial)
    requires Usable(b)
    ensures DeriveKeyMaterial(f, b.secret, b.memh, b.epoch, b.context, salt) == Ok(km)
    ensures km.commitment == f.sha3(CommitInput(CommittedHalf(f, KdfInputOf(f, b, salt))))
  {
    DeriveKeyMaterial(f, b.secret, b.memh, b.epoch, b.context, salt).value
  }

  /** The collision two bindings expose when they commit alike under one salt, searched from the
    * commitment hash inwards to the info hash. */
  function FindCollision(f: Lib, x: Binding, y: Binding, salt: Salt): (r: Option<Collision>)
    requires Usable(x) && Usable(y)
    ensures r.Some? ==> IsCollision(f, r.value)
    ensures x != y && MaterialOf(f, x, salt).commitment == MaterialOf(f, y, salt).commitment ==> r.Some?
  {
    var u, v := KdfInputOf(f, x, salt), KdfInputOf(f, y, salt);
    var s, t := CommittedHalf(f, u), CommittedHalf(f, v);
    if s != t then
      assert CommitInput(s) != CommitInput(t) by { CommitInputInjective(s, t); }
      if f.sha3(CommitInput(s)) == f.sha3(CommitInput(t)) then Some(HashCollision(CommitInput(s), CommitInput(t)))
      else None
    else if u != v then Some(CommittedHalfCollision(u, v))
    else if CanonicalOf(x) != CanonicalOf(y) then
      Split(KDF_INFO_PREFIX, f.sha3(CanonicalOf(x)), KDF_INFO_PREFIX, f.sha3(CanonicalOf(y)));
      Some(HashCollision(CanonicalOf(x), CanonicalOf(y)))
    else
      KdfCanonicalInjective(x.context, x.epoch, x.memh, y.context, y.epoch, y.memh);
      None
  }

  lemma CommitInputInjective(s: Bytes, t: Bytes)
    ensures CommitInput(s) == CommitInput(t) ==> s == t
  {
    if CommitInput(s) == CommitInput(t) {
      Split(DOMAIN + COMMIT_LABEL, s, DOMAIN + COMMIT_LABEL, t);
    }
  }

  /** An envelope that opens carries the commitment of the binding it opens under. */
  lemma OpenedCommitment(f: Lib, e: Bytes, b: Binding)
    requires UnsealState(f, e, b).Ok?
    ensures |e| >= HEADER_LEN && Usable(b)
    ensures e[33..65] == MaterialOf(f, b, DrawOf(e).salt).commitment
  {
    ParseIffFramed(e);
  }

  /** Envelopes commit to one binding: one that opens under two either opens them to the same state
    * under equal bindings, or hands over a collision. */
  lemma EnvelopeCommits(f: Lib, e: Bytes, x: Binding, y: Binding)
    requires UnsealState(f, e, x).Ok? && UnsealState(f, e, y).Ok?
    ensures Usable(x) && Usable(y) && |e| >= HEADER_LEN
    ensures x == y || FindCollision(f, x, y, DrawOf(e).salt).Some?
  {
    OpenedCommitment(f, e, x);
    OpenedCommitment(f, e, y);
  }
}
