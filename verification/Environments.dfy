/** Key commitment carried through to manifests: an envelope opens in one environment. */
module Environments {
  import opened Results
  import opened ByteStrings
  import opened Primitives
  import opened Envelope
  import opened Commitment
  import opened Manifests
  import opened Canonical
  import opened ModelManifests

  /** What the caller of `seal_state` and `unseal_state` presents. */
  datatype Environment = Environment(secret: Bytes, manifest: Manifest, epoch: int, context: Bytes)

  function BindingOf(f: Lib, x: Environment): Binding {
    Binding(x.secret, Fingerprint(f, x.manifest), x.epoch, x.context)
  }

  /** Equal up to the normal form of the manifests' strings and the order of their extras. */
  predicate SameEnvironment(f: Lib, x: Environment, y: Environment) {
    x.secret == y.secret && x.epoch == y.epoch && x.context == y.context && NfcEqual(f, x.manifest, y.manifest)
  }

  /** The collision two environments expose when they commit alike under one salt. */
  function FindEnvironmentCollision(f: Lib, x: Environment, y: Environment, salt: Salt): (r: Option<Collision>)
    requires Accepted(f, x.manifest) && Accepted(f, y.manifest)
    requires Usable(BindingOf(f, x)) && Usable(BindingOf(f, y))
    ensures r.Some? ==> IsCollision(f, r.value)
    ensures !SameEnvironment(f, x, y)
            && MaterialOf(f, BindingOf(f, x), salt).commitment == MaterialOf(f, BindingOf(f, y), salt).commitment
            ==> r.Some?
  {
    var c, d := CanonicalForm(f, x.manifest), CanonicalForm(f, y.manifest);
    CanonicalIffNfcEqual(f, x.manifest, y.manifest);
    if c != d && f.sha3(c) == f.sha3(d) then Some(HashCollision(c, d))
    else FindCollision(f, BindingOf(f, x), BindingOf(f, y), salt)
  }

  /** An envelope that opens in two environments opens in one environment twice, to one state, or exposes a
    * collision of SHA3-256 or of HKDF's committed half. */
  lemma EnvelopeBindsEnvironment(f: Lib, e: Bytes, x: Environment, y: Environment)
    requires Accepted(f, x.manifest) && Accepted(f, y.manifest)
    requires UnsealState(f, e, BindingOf(f, x)).Ok? && UnsealState(f, e, BindingOf(f, y)).Ok?
    ensures Usable(BindingOf(f, x)) && Usable(BindingOf(f, y)) && |e| >= HEADER_LEN
    ensures || SameEnvironment(f, x, y)
            || FindEnvironmentCollision(f, x, y, DrawOf(e).salt).Some?
  {
    OpenedCommitment(f, e, BindingOf(f, x));
    OpenedCommitment(f, e, BindingOf(f, y));
  }

  /** Environments equal up to NFC open the same envelopes to the same states. */
  lemma SameEnvironmentOpensAlike(f: Lib, e: Bytes, x: Environment, y: Environment)
    requires Accepted(f, x.manifest) && Accepted(f, y.manifest) && SameEnvironment(f, x, y)
    ensures UnsealState(f, e, BindingOf(f, x)) == UnsealState(f, e, BindingOf(f, y))
  {
    CanonicalIffNfcEqual(f, x.manifest, y.manifest);
  }
}
