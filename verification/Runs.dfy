/** Whole runs: any interleaving of direct seals, chunked seals, and containers and envelopes presented for
  * opening, whoever chose their bytes.  The integrity of AES-GCM-SIV enters as a hypothesis about the decryptions a
  * run makes, collisions as explicit pairs among its key derivations. */
module Runs {
  import opened Results
  import opened ByteStrings
  import opened Primitives
  import opened Envelope
  import opened Commitment
  import opened StreamFormat
  import opened Framing
  import opened Stream
  import opened StreamTheorems

  datatype Event =
    | Sealed(state: Bytes, b: Binding, d: Draw)
    | SealedChunked(state: Bytes, b: Binding, size: int, id: StreamId, draws: nat -> Draw)
    | Presented(c: Bytes, b: Binding)
    | PresentedEnvelope(e: Bytes, b: Binding)

  /** An envelope the event seals. */
  datatype Sealing = Sealing(state: Bytes, b: Binding, d: Draw)

  /** `s` is one of the envelopes the event seals, if the call succeeds at all. */
  ghost predicate Seals(ev: Event, s: Sealing) {
    match ev
    case Sealed(state, b, d) => Usable(b) && |state| <= MAX_STATE && s == Sealing(state, b, d)
    case SealedChunked(state, b, size, id, draws) =>
      Sealable(state, b, size) &&
      exists i :: 0 <= i < |Plan(|state|, size)| && s == SegmentSealing(state, b, size, id, draws, i)
    case Presented(_, _) => false
    case PresentedEnvelope(_, _) => false
  }

  function SegmentSealing(state: Bytes, b: Binding, size: int, id: StreamId, draws: nat -> Draw, i: nat): (s: Sealing)
    requires Sealable(state, b, size) && i < |Plan(|state|, size)|
    ensures Usable(s.b)
  {
    Sealing(SegmentOf(state, size, i), SegBinding(b, HeaderFor(id, |state|, size), i), draws(i))
  }

  // The log of encryptions and the decryptions asked of it

  datatype Encryption = Encryption(key: Key, nonce: Nonce, plaintext: Bytes, aad: Bytes)

  function EncryptionOf(f: Lib, s: Sealing): Encryption
    requires Usable(s.b)
  {
    var km := MaterialOf(f, s.b, s.d.salt);
    Encryption(km.key, s.d.nonce, s.state, Aad(HeaderPrefix(s.d.nonce, s.d.salt, km.commitment), s.b.memh, s.b.epoch))
  }

  ghost predicate Logged(f: Lib, past: seq<Event>, x: Encryption) {
    exists j, s :: 0 <= j < |past| && Seals(past[j], s) && Usable(s.b) && x == EncryptionOf(f, s)
  }

  /** Opening `c` under `b` decrypts the last of these frames: its header is admitted, they are its first frames, all
    * before the last open and the last parses.  What follows them does not matter. */
  predicate Asks(f: Lib, c: Bytes, b: Binding, h: StreamHeader, envs: seq<Bytes>) {
    && AdmitHeader(c) == Ok(h) && 0 < |envs| <= h.count && HeaderBytes(h) + Frames(envs) <= c && Sized(envs)
    && (forall k :: 0 <= k < |envs| - 1 ==> OpenSegment(f, b, h, k, envs[k]).Ok?)
    && Parse(envs[|envs| - 1]).Ok? && Usable(SegBinding(b, h, |envs| - 1))
  }

  /** When the decryption of envelope `e` under `b` yields a plaintext, a seal encrypted just that. */
  ghost predicate Backed(f: Lib, past: seq<Event>, e: Bytes, b: Binding)
    requires Parse(e).Ok? && Usable(b)
  {
    var q := Parse(e).value;
    var key := MaterialOf(f, b, q.salt).key;
    var aad := Aad(q.prefix, b.memh, b.epoch);
    var m := f.decrypt(key, q.nonce, q.ciphertext, aad);
    m.Some? ==> Logged(f, past, Encryption(key, q.nonce, m.value, aad))
  }

  /** Ciphertext integrity, as far as one presentation needs it: no decryption it makes succeeds on a forgery. */
  ghost predicate Unforged(f: Lib, past: seq<Event>, c: Bytes, b: Binding) {
    forall h, envs :: Asks(f, c, b, h, envs) ==> Backed(f, past, envs[|envs| - 1], SegBinding(b, h, |envs| - 1))
  }

  // Collisions among the run's key derivations

  ghost predicate Derives(f: Lib, ev: Event, x: Binding, salt: Salt) {
    || (exists s :: Seals(ev, s) && s.b == x && s.d.salt == salt)
    || (ev.Presented? && exists h, envs ::
          && Asks(f, ev.c, ev.b, h, envs) && x == SegBinding(ev.b, h, |envs| - 1)
          && salt == Parse(envs[|envs| - 1]).value.salt)
    || (ev.PresentedEnvelope? && Parse(ev.e).Ok? && x == ev.b && salt == Parse(ev.e).value.salt)
  }

  ghost predicate DerivedIn(f: Lib, run: seq<Event>, x: Binding, salt: Salt) {
    exists j :: 0 <= j < |run| && Derives(f, run[j], x, salt)
  }

  /** Two derivations made in the run expose a collision. */
  ghost predicate HasCollision(f: Lib, run: seq<Event>) {
    exists x, y, salt ::
      && Usable(x) && Usable(y) && DerivedIn(f, run, x, salt) && DerivedIn(f, run, y, salt)
      && FindCollision(f, x, y, salt).Some?
  }

  // What callers owe

  ghost predicate DistinctStreams(run: seq<Event>) {
    forall i, j :: 0 <= i < j < |run| && run[i].SealedChunked? && run[j].SealedChunked? ==> run[i].id != run[j].id
  }

  /** No direct seal so far was made under the binding of one of the segments that `c` says it has. */
  predicate NamesNoSegment(past: seq<Event>, c: Bytes, b: Binding) {
    AdmitHeader(c).Ok? ==>
      forall j, k :: 0 <= j < |past| && past[j].Sealed? && 0 <= k < AdmitHeader(c).value.count ==>
                       past[j].b != SegBinding(b, AdmitHeader(c).value, k)
  }

  /** Callers of `seal_state` see to it by keeping their contexts out of the stream domain, or by using contexts in it
    * that are too short for a segment's, such as the bare domain. */
  lemma OutsideDomainNamesNoSegment(past: seq<Event>, c: Bytes, b: Binding)
    requires forall j :: 0 <= j < |past| && past[j].Sealed? ==>
               !(STREAM_DOMAIN <= past[j].b.context) || |past[j].b.context| < 74
    ensures NamesNoSegment(past, c, b)
  {
    if AdmitHeader(c).Ok? {
      forall k: nat
        ensures var sb := SegBinding(b, AdmitHeader(c).value, k); STREAM_DOMAIN <= sb.context && |sb.context| >= 74
      {
        SegContextDomain(b.context, AdmitHeader(c).value, k);
      }
    }
  }

  // The theorem

  /** `c` is what this very call returned, for this binding and state. */
  predicate Returned(f: Lib, ev: Event, c: Bytes, b: Binding, m: Bytes) {
    && ev.SealedChunked? && ev.b == b && ev.state == m
    && SealOutcome(f, ev.state, ev.b, ev.size, ev.id, ev.draws) == Ok(c)
  }

  /** The decryption that opened an envelope, traced to the seal that encrypted it: same state, draw and binding. */
  lemma OpenedIsLogged(f: Lib, past: seq<Event>, e: Bytes, b: Binding, m: Bytes) returns (j: nat, s: Sealing)
    requires UnsealState(f, e, b) == Ok(m) && Parse(e).Ok? && Usable(b) && Backed(f, past, e, b)
    ensures j < |past| && Seals(past[j], s) && Usable(s.b) && |e| >= HEADER_LEN
    ensures s.state == m && s.d == DrawOf(e)
    ensures s.b == b || FindCollision(f, b, s.b, DrawOf(e).salt).Some?
  {
    var q := Parse(e).value;
    var key := MaterialOf(f, b, q.salt).key;
    var x := Encryption(key, q.nonce, m, Aad(q.prefix, b.memh, b.epoch));
    assert Logged(f, past, x);
    j, s :| 0 <= j < |past| && Seals(past[j], s) && Usable(s.b) && x == EncryptionOf(f, s);
    var km := MaterialOf(f, s.b, s.d.salt);
    ParseIffPrint(e, q);
    AadInjective(q.prefix, b.memh, b.epoch, HeaderPrefix(s.d.nonce, s.d.salt, km.commitment), s.b.memh, s.b.epoch);
    HeaderLayout(s.d.nonce, s.d.salt, km.commitment, []);
    HeaderLayout(q.nonce, q.salt, q.commitment, []);
    assert HeaderPrefix(s.d.nonce, s.d.salt, km.commitment) + [] == HeaderPrefix(q.nonce, q.salt, q.commitment) + [];
    OpenedCommitment(f, e, b);
  }

  /** `e` is segment `k` of what this call sealed, for this binding, header and part. */
  predicate SegmentReturned(f: Lib, ev: Event, b: Binding, h: StreamHeader, k: nat, e: Bytes, m: Bytes) {
    && ev.SealedChunked? && ev.b == b && Sealable(ev.state, ev.b, ev.size)
    && h == HeaderFor(ev.id, |ev.state|, ev.size) && k < h.count
    && m == SegmentOf(ev.state, ev.size, k)
    && e == EnvelopeAt(f, ev.state, ev.b, ev.size, ev.id, ev.draws, k)
  }

  ghost predicate SegmentSealed(f: Lib, past: seq<Event>, b: Binding, h: StreamHeader, k: nat, e: Bytes, m: Bytes) {
    exists j :: 0 <= j < |past| && SegmentReturned(f, past[j], b, h, k, e, m)
  }

  lemma OpenedAsks(f: Lib, c: Bytes, b: Binding, h: StreamHeader, envs: seq<Bytes>, parts: seq<Bytes>, k: nat)
    requires OpensPrefix(f, c, b, h, envs, parts) && k < |envs|
    ensures Asks(f, c, b, h, envs[..k + 1])
    ensures Parse(envs[k]).value.salt == DrawOf(envs[k]).salt
  {
    var asked := envs[..k + 1];
    FramesOfPrefix(HeaderBytes(h), envs, k + 1);
    forall i | 0 <= i < k + 1
      ensures OpenSegment(f, b, h, i, asked[i]).Ok?
    {
      OpenedSegment(f, b, h, envs, parts, i);
    }
    OpenedSegment(f, b, h, envs, parts, k);
    OpenedParses(f, envs[k], SegBinding(b, h, k));
  }

  lemma OpenedParses(f: Lib, e: Bytes, b: Binding)
    requires UnsealState(f, e, b).Ok?
    ensures Parse(e).Ok? && |e| >= HEADER_LEN && Parse(e).value.salt == DrawOf(e).salt
  {
    ParseIffPrint(e, Parse(e).value);
  }

  lemma CollisionInRun(f: Lib, run: seq<Event>, i: nat, x: Binding, j: nat, y: Binding, salt: Salt)
    requires i < |run| && j < |run| && Usable(x) && Usable(y)
    requires Derives(f, run[i], x, salt) && Derives(f, run[j], y, salt) && FindCollision(f, x, y, salt).Some?
    ensures HasCollision(f, run)
  {
    assert DerivedIn(f, run, x, salt) && DerivedIn(f, run, y, salt);
  }

  /** Where an opened frame came from: some earlier seal of its part under its segment's binding printed it, either
    * a chunked call, as that very segment, or a direct seal. */
  lemma FrameOrigin(f: Lib, run: seq<Event>, t: nat, h: StreamHeader, envs: seq<Bytes>, parts: seq<Bytes>, k: nat)
    returns (j: nat)
    requires t < |run| && run[t].Presented? && Unforged(f, run[..t], run[t].c, run[t].b) && !HasCollision(f, run)
    requires OpensPrefix(f, run[t].c, run[t].b, h, envs, parts) && k < |envs|
    ensures |parts| == |envs| && |envs[k]| >= HEADER_LEN && j < t
    ensures SealState(f, parts[k], SegBinding(run[t].b, h, k), DrawOf(envs[k])) == Ok(envs[k])
    ensures SegmentReturned(f, run[j], run[t].b, h, k, envs[k], parts[k])
            || run[j] == Sealed(parts[k], SegBinding(run[t].b, h, k), DrawOf(envs[k]))
  {
    var c, b, e := run[t].c, run[t].b, envs[k];
    var sb := SegBinding(b, h, k);
    OpenedSegment(f, b, h, envs, parts, k);
    OpenedAsks(f, c, b, h, envs, parts, k);
    assert envs[..k + 1][k] == e;
    var s;
    j, s := OpenedIsLogged(f, run[..t], e, sb, parts[k]);
    assert Derives(f, run[t], sb, DrawOf(e).salt);
    assert Derives(f, run[j], s.b, DrawOf(e).salt);
    if FindCollision(f, sb, s.b, DrawOf(e).salt).Some? {
      CollisionInRun(f, run, t, sb, j, s.b, DrawOf(e).salt);
    }
    UnsealIffSealed(f, e, sb, parts[k]);
    SealingIsSegment(f, run[j], b, h, k, e, s);
  }

  /** A seal made under a segment's binding was made by a chunked call, for that segment, or directly. */
  lemma SealingIsSegment(f: Lib, ev: Event, b: Binding, h: StreamHeader, k: nat, e: Bytes, s: Sealing)
    requires Seals(ev, s) && s.b == SegBinding(b, h, k) && Usable(s.b) && k < h.count
    requires SealState(f, s.state, s.b, s.d) == Ok(e)
    ensures SegmentReturned(f, ev, b, h, k, e, s.state) || ev == Sealed(s.state, s.b, s.d)
  {
    if ev.SealedChunked? {
      var i :| 0 <= i < |Plan(|ev.state|, ev.size)|
        && s == SegmentSealing(ev.state, ev.b, ev.size, ev.id, ev.draws, i);
      SameSegment(b, h, k, ev.b, HeaderFor(ev.id, |ev.state|, ev.size), i);
    }
  }

  /** Each frame that opens is a segment some earlier call sealed in just that place, whatever becomes of the rest
    * of the container. */
  lemma FrameWasSealed(f: Lib, run: seq<Event>, t: nat, h: StreamHeader, envs: seq<Bytes>, parts: seq<Bytes>, k: nat)
    returns (j: nat)
    requires t < |run| && run[t].Presented? && NamesNoSegment(run[..t], run[t].c, run[t].b)
    requires Unforged(f, run[..t], run[t].c, run[t].b) && !HasCollision(f, run)
    requires OpensPrefix(f, run[t].c, run[t].b, h, envs, parts) && k < |envs|
    ensures |parts| == |envs| && j < t && SegmentReturned(f, run[j], run[t].b, h, k, envs[k], parts[k])
  {
    j := FrameOrigin(f, run, t, h, envs, parts, k);
    assert run[..t][j] == run[j];
  }

  /** A segment's binding tells the binding, header and index it was made from. */
  lemma SameSegment(b1: Binding, h1: StreamHeader, i1: u64, b2: Binding, h2: StreamHeader, i2: u64)
    requires SegBinding(b1, h1, i1) == SegBinding(b2, h2, i2) && Usable(SegBinding(b1, h1, i1))
    ensures b1 == b2 && h1 == h2 && i1 == i2
  {
    SegContextInjective(b1.context, h1, i1, b2.context, h2, i2);
  }

  /** `c` begins with the header and these envelopes because a container this very call returned does, and they are
    * the envelopes of these slices of its state. */
  predicate PrefixReturned(f: Lib, ev: Event, b: Binding, h: StreamHeader, envs: seq<Bytes>, parts: seq<Bytes>) {
    && ev.SealedChunked? && ev.b == b && Sealable(ev.state, ev.b, ev.size) && h == HeaderFor(ev.id, |ev.state|, ev.size)
    && envs <= Envelopes(f, ev.state, ev.b, ev.size, ev.id, ev.draws)
    && parts <= Slices(ev.state, Plan(|ev.state|, ev.size))
  }

  lemma SameCall(f: Lib, run: seq<Event>, b: Binding, h: StreamHeader, i: nat, k1: nat, e1: Bytes, m1: Bytes,
                 j: nat, k2: nat, e2: Bytes, m2: Bytes)
    requires DistinctStreams(run) && i < |run| && j < |run|
    requires SegmentReturned(f, run[i], b, h, k1, e1, m1) && SegmentReturned(f, run[j], b, h, k2, e2, m2)
    ensures i == j
  {
    assert run[i].id == h.id == run[j].id;
  }

  /** Segments sealed in the places of one header come from one call. */
  lemma SegmentsOfOneCall(f: Lib, run: seq<Event>, t: nat, b: Binding, h: StreamHeader, envs: seq<Bytes>,
                          parts: seq<Bytes>) returns (j: nat)
    requires DistinctStreams(run) && t <= |run| && 0 < |envs| == |parts|
    requires forall k :: 0 <= k < |envs| ==> SegmentSealed(f, run[..t], b, h, k, envs[k], parts[k])
    ensures j < t && PrefixReturned(f, run[j], b, h, envs, parts)
  {
    assert SegmentSealed(f, run[..t], b, h, 0, envs[0], parts[0]);
    j :| 0 <= j < t && SegmentReturned(f, run[..t][j], b, h, 0, envs[0], parts[0]);
    var ev := run[j];
    forall k | 0 <= k < |envs|
      ensures SegmentReturned(f, ev, b, h, k, envs[k], parts[k])
    {
      assert SegmentSealed(f, run[..t], b, h, k, envs[k], parts[k]);
      var i :| 0 <= i < t && SegmentReturned(f, run[..t][i], b, h, k, envs[k], parts[k]);
      SameCall(f, run, b, h, i, k, envs[k], parts[k], j, 0, envs[0], parts[0]);
    }
    assert SegmentReturned(f, ev, b, h, |envs| - 1, envs[|envs| - 1], parts[|envs| - 1]);
  }

  /** What opens of a container, be it rejected further on, is the beginning of one that some earlier call returned
    * for the same binding: no plaintext is ever computed from anything else. */
  lemma OpenedPrefixWasReturned(f: Lib, run: seq<Event>, t: nat, h: StreamHeader, envs: seq<Bytes>, parts: seq<Bytes>)
    returns (j: nat)
    requires DistinctStreams(run) && t < |run| && run[t].Presented? && NamesNoSegment(run[..t], run[t].c, run[t].b)
    requires Unforged(f, run[..t], run[t].c, run[t].b) && !HasCollision(f, run)
    requires OpensPrefix(f, run[t].c, run[t].b, h, envs, parts) && envs != []
    ensures j < t && PrefixReturned(f, run[j], run[t].b, h, envs, parts)
  {
    forall k | 0 <= k < |envs|
      ensures |parts| == |envs| && SegmentSealed(f, run[..t], run[t].b, h, k, envs[k], parts[k])
    {
      var i := FrameWasSealed(f, run, t, h, envs, parts, k);
      assert run[..t][i] == run[i];
    }
    j := SegmentsOfOneCall(f, run, t, run[t].b, h, envs, parts);
  }

  lemma FramedPrefix(f: Lib, c: Bytes, b: Binding, h: StreamHeader, envs: seq<Bytes>, parts: seq<Bytes>)
    requires Framed(f, c, b, h, envs, parts)
    ensures OpensPrefix(f, c, b, h, envs, parts)
  {
    FramedRuns(f, c, b, h, envs, parts);
    FramedLength(f, c, b, h, envs, parts);
  }

  lemma WholePrefix(f: Lib, ev: Event, c: Bytes, b: Binding, h: StreamHeader, envs: seq<Bytes>, parts: seq<Bytes>)
    requires Framed(f, c, b, h, envs, parts) && PrefixReturned(f, ev, b, h, envs, parts)
    ensures Returned(f, ev, c, b, Concat(parts)) && |Concat(parts)| == h.totalLen
  {
    FramedSegment(f, c, b, h, envs, parts, 0);
    assert envs == Envelopes(f, ev.state, ev.b, ev.size, ev.id, ev.draws);
    assert parts == Slices(ev.state, Plan(|ev.state|, ev.size));
    PlanPartitions(ev.state, ev.size);
  }

  /** A container whose frames all open was returned by one call, the total in its header included. */
  lemma FramedWasReturned(f: Lib, run: seq<Event>, t: nat, h: StreamHeader, envs: seq<Bytes>, parts: seq<Bytes>)
    returns (j: nat)
    requires DistinctStreams(run) && t < |run| && run[t].Presented? && NamesNoSegment(run[..t], run[t].c, run[t].b)
    requires Unforged(f, run[..t], run[t].c, run[t].b) && !HasCollision(f, run)
    requires Framed(f, run[t].c, run[t].b, h, envs, parts)
    ensures j < t && Returned(f, run[j], run[t].c, run[t].b, Concat(parts)) && |Concat(parts)| == h.totalLen
  {
    FramedPrefix(f, run[t].c, run[t].b, h, envs, parts);
    j := OpenedPrefixWasReturned(f, run, t, h, envs, parts);
    WholePrefix(f, run[j], run[t].c, run[t].b, h, envs, parts);
  }

  /** What a call returned was framed from its own segments. */
  lemma ReturnedSegments(f: Lib, ev: Event, c: Bytes, b: Binding, h: StreamHeader, envs: seq<Bytes>, parts: seq<Bytes>,
                         k: nat)
    requires Framed(f, c, b, h, envs, parts) && Returned(f, ev, c, b, Concat(parts)) && k < |envs|
    ensures |parts| == |envs| && SegmentReturned(f, ev, b, h, k, envs[k], parts[k])
  {
    ContainerFramed(f, ev.state, ev.b, ev.size, ev.id, ev.draws);
    FramingUnique(f, c, b, h, envs, parts, b, HeaderFor(ev.id, |ev.state|, ev.size),
                  Envelopes(f, ev.state, ev.b, ev.size, ev.id, ev.draws), Slices(ev.state, Plan(|ev.state|, ev.size)));
  }

  /** Exactly when a framed container was returned by a call, with no hypothesis on direct seals, forgeries or
    * collisions: when each of its frames was sealed in its place by a chunked call. */
  lemma ReturnedIffSegments(f: Lib, run: seq<Event>, t: nat, b: Binding, c: Bytes, h: StreamHeader, envs: seq<Bytes>,
                            parts: seq<Bytes>)
    requires DistinctStreams(run) && t <= |run| && Framed(f, c, b, h, envs, parts)
    ensures |parts| == |envs|
    ensures (exists j :: 0 <= j < t && Returned(f, run[j], c, b, Concat(parts))) <==>
            forall k :: 0 <= k < |envs| ==> SegmentSealed(f, run[..t], b, h, k, envs[k], parts[k])
  {
    FramedSegment(f, c, b, h, envs, parts, 0);
    if j :| 0 <= j < t && Returned(f, run[j], c, b, Concat(parts)) {
      forall k | 0 <= k < |envs|
        ensures SegmentSealed(f, run[..t], b, h, k, envs[k], parts[k])
      {
        ReturnedSegments(f, run[j], c, b, h, envs, parts, k);
        assert run[..t][j] == run[j];
      }
    } else if forall k :: 0 <= k < |envs| ==> SegmentSealed(f, run[..t], b, h, k, envs[k], parts[k]) {
      var j := SegmentsOfOneCall(f, run, t, b, h, envs, parts);
      WholePrefix(f, run[j], c, b, h, envs, parts);
    }
  }

  /** Containers are not malleable.  In every run whose presentations decrypt no forgery and whose key
    * derivations expose no collision, every container that opens is, byte for byte, one that an earlier chunked
    * seal returned for the same secret, fingerprint, epoch and context, and it opens to that call's state. */
  lemma ContainersAreNotMalleable(f: Lib, run: seq<Event>)
    requires DistinctStreams(run) && !HasCollision(f, run)
    requires forall t :: 0 <= t < |run| && run[t].Presented? ==>
               NamesNoSegment(run[..t], run[t].c, run[t].b) && Unforged(f, run[..t], run[t].c, run[t].b)
    ensures forall t, m :: 0 <= t < |run| && run[t].Presented? && OpenContainer(f, run[t].c, run[t].b) == Ok(m) ==>
              exists j :: 0 <= j < t && Returned(f, run[j], run[t].c, run[t].b, m)
  {
    forall t, m | 0 <= t < |run| && run[t].Presented? && OpenContainer(f, run[t].c, run[t].b) == Ok(m)
      ensures exists j :: 0 <= j < t && Returned(f, run[j], run[t].c, run[t].b, m)
    {
      var h := AdmitHeader(run[t].c).value;
      var envs, parts := RunIsFramed(f, run[t].c, run[t].b, h);
      var j := FramedWasReturned(f, run, t, h, envs, parts);
    }
  }

  /** However opening ends, every segment opened on the way was one call's, in its place: on a failure at segment
    * `index` the first `index` frames are the beginning of a container that call returned. */
  lemma RejectedContainersBeginGenuine(f: Lib, run: seq<Event>, t: nat)
    returns (envs: seq<Bytes>, parts: seq<Bytes>, j: nat)
    requires DistinctStreams(run) && !HasCollision(f, run) && t < |run| && run[t].Presented?
    requires NamesNoSegment(run[..t], run[t].c, run[t].b) && Unforged(f, run[..t], run[t].c, run[t].b)
    requires AdmitHeader(run[t].c).Ok?
    ensures var h := AdmitHeader(run[t].c).value;
            var end := OpenFrames(SegmentOpener(f, run[t].b, h), run[t].c, h.count, 0, STREAM_HEADER_LEN);
            && |envs| == (if end.Failed? then end.index else h.count) && HeaderBytes(h) + Frames(envs) <= run[t].c
            && OpensAs(SegmentOpener(f, run[t].b, h), 0, envs, parts)
            && (envs != [] ==> j < t && PrefixReturned(f, run[j], run[t].b, h, envs, parts))
  {
    var h := AdmitHeader(run[t].c).value;
    envs, parts := WorkIsBounded(f, run[t].c, run[t].b, h);
    j := 0;
    if envs != [] {
      j := OpenedPrefixWasReturned(f, run, t, h, envs, parts);
    }
  }

  /** In such a run the final comparison of lengths never fails: once the loop has opened every segment and
    * stands on the last byte, the segments add up to the header's total. */
  lemma TotalAlwaysMatches(f: Lib, run: seq<Event>, t: nat)
    requires DistinctStreams(run) && !HasCollision(f, run) && t < |run| && run[t].Presented?
    requires NamesNoSegment(run[..t], run[t].c, run[t].b) && Unforged(f, run[..t], run[t].c, run[t].b)
    requires AdmitHeader(run[t].c).Ok?
    requires var h := AdmitHeader(run[t].c).value;
             var end := OpenFrames(SegmentOpener(f, run[t].b, h), run[t].c, h.count, 0, STREAM_HEADER_LEN);
             end.Opened? && end.off == |run[t].c|
    ensures OpenContainer(f, run[t].c, run[t].b).Ok?
  {
    var h := AdmitHeader(run[t].c).value;
    var envs, parts := RunIsFramed(f, run[t].c, run[t].b, h);
    var j := FramedWasReturned(f, run, t, h, envs, parts);
  }

  /** Reordering, dropping, duplicating, splicing, truncating, extending and fixing up the header all fail closed:
    * in such a run the only string with a call's stream id that opens, under any binding, is the very container
    * that call returned, under its binding, after the call. */
  lemma TamperedNeverOpens(f: Lib, run: seq<Event>, t: nat, j: nat)
    requires DistinctStreams(run) && !HasCollision(f, run) && t < |run| && run[t].Presented?
    requires NamesNoSegment(run[..t], run[t].c, run[t].b) && Unforged(f, run[..t], run[t].c, run[t].b)
    requires j < |run| && run[j].SealedChunked?
    requires |run[t].c| >= STREAM_HEADER_LEN && run[t].c[5..21] == run[j].id
    ensures var r := OpenContainer(f, run[t].c, run[t].b);
            r.Ok? ==> j < t && Returned(f, run[j], run[t].c, run[t].b, r.value)
  {
    if OpenContainer(f, run[t].c, run[t].b).Ok? {
      var h := AdmitHeader(run[t].c).value;
      var envs, parts := RunIsFramed(f, run[t].c, run[t].b, h);
      var i := FramedWasReturned(f, run, t, h, envs, parts);
      StreamHeaderLayout(HeaderFor(run[i].id, |run[i].state|, run[i].size),
                         Frames(Envelopes(f, run[i].state, run[i].b, run[i].size, run[i].id, run[i].draws)));
      assert i == j;
    }
  }

  /** Single envelopes are not malleable either: one that opens was printed by an earlier seal of that state under
    * that very binding.  If its context does not begin with the stream domain, the seal was a direct one, so no
    * segment of any container can be passed off as an envelope of its own. */
  lemma EnvelopesAreNotMalleable(f: Lib, run: seq<Event>, t: nat, m: Bytes) returns (j: nat, s: Sealing)
    requires !HasCollision(f, run) && t < |run| && run[t].PresentedEnvelope?
    requires UnsealState(f, run[t].e, run[t].b) == Ok(m)
    requires Parse(run[t].e).Ok? && Usable(run[t].b) ==> Backed(f, run[..t], run[t].e, run[t].b)
    ensures j < t && Seals(run[j], s) && s.state == m && s.b == run[t].b
    ensures SealState(f, m, s.b, s.d) == Ok(run[t].e)
    ensures !(STREAM_DOMAIN <= run[t].b.context) ==> run[j].Sealed?
  {
    var e, b := run[t].e, run[t].b;
    OpenedCommitment(f, e, b);
    OpenedParses(f, e, b);
    j, s := OpenedIsLogged(f, run[..t], e, b, m);
    var salt := DrawOf(e).salt;
    assert Derives(f, run[t], b, salt);
    assert Derives(f, run[j], s.b, salt);
    if FindCollision(f, b, s.b, salt).Some? {
      CollisionInRun(f, run, t, b, j, s.b, salt);
    }
    UnsealIffSealed(f, e, b, m);
    if run[j].SealedChunked? {
      var ev := run[j];
      var i :| 0 <= i < |Plan(|ev.state|, ev.size)|
        && s == SegmentSealing(ev.state, ev.b, ev.size, ev.id, ev.draws, i);
      SegContextDomain(ev.b.context, HeaderFor(ev.id, |ev.state|, ev.size), i);
    }
  }

  // The hypotheses can be met

  /** What a seal printed is backed by that seal. */
  lemma SealedIsBacked(f: Lib, past: seq<Event>, j: nat, s: Sealing, e: Bytes)
    requires j < |past| && Seals(past[j], s) && Usable(s.b) && SealState(f, s.state, s.b, s.d) == Ok(e)
    ensures Parse(e).Ok? && Parse(e).value.salt == s.d.salt && Backed(f, past, e, s.b)
  {
    var km := MaterialOf(f, s.b, s.d.salt);
    var x := EncryptionOf(f, s);
    var c := f.encrypt(x.key, x.nonce, x.plaintext, x.aad);
    TagLength(f, x.key, x.nonce, x.plaintext, x.aad);
    Decrypts(f, x.key, x.nonce, c, x.plaintext, x.aad);
    ParseIffPrint(e, Parsed(HeaderPrefix(s.d.nonce, s.d.salt, km.commitment), s.d.nonce, s.d.salt, km.commitment, c));
    assert Logged(f, past, x);
  }

  /** Some seal among these events printed `e` under `sb`. */
  ghost predicate SealedAs(f: Lib, past: seq<Event>, e: Bytes, sb: Binding) {
    exists j, s :: 0 <= j < |past| && Seals(past[j], s) && s.b == sb && Usable(sb)
                 && SealState(f, s.state, sb, s.d) == Ok(e)
  }

  ghost predicate AllSealed(f: Lib, past: seq<Event>, b: Binding, h: StreamHeader, envs: seq<Bytes>) {
    |envs| == h.count && Sized(envs) && forall k :: 0 <= k < |envs| ==> SealedAs(f, past, envs[k], SegBinding(b, h, k))
  }

  /** What opening a container decrypts is what it was framed from. */
  lemma AskedFrames(f: Lib, b: Binding, h: StreamHeader, envs: seq<Bytes>, h': StreamHeader, asked: seq<Bytes>)
    requires |envs| == h.count && Sized(envs) && Asks(f, HeaderBytes(h) + Frames(envs), b, h', asked)
    ensures h' == h && |asked| <= |envs| && asked == envs[..|asked|]
  {
    var c := HeaderBytes(h) + Frames(envs);
    StreamHeaderLayout(h, Frames(envs));
    ParseHeaderIffPrinted(c, h);
    ParseHeaderIffPrinted(c, h');
    assert Frames(asked) == (HeaderBytes(h) + Frames(asked))[STREAM_HEADER_LEN..] <= c[STREAM_HEADER_LEN..];
    FramesPrefix(asked, envs);
  }

  /** The seal behind the frame that is asked for. */
  lemma AskedWasSealed(f: Lib, past: seq<Event>, b: Binding, h: StreamHeader, envs: seq<Bytes>, h': StreamHeader,
                       asked: seq<Bytes>) returns (j: nat, s: Sealing)
    requires AllSealed(f, past, b, h, envs) && Asks(f, HeaderBytes(h) + Frames(envs), b, h', asked)
    ensures var k := |asked| - 1;
            && j < |past| && Seals(past[j], s) && s.b == SegBinding(b, h', k)
            && s.d.salt == Parse(asked[k]).value.salt && Backed(f, past, asked[k], s.b)
  {
    var k := |asked| - 1;
    AskedFrames(f, b, h, envs, h', asked);
    assert asked[k] == envs[k];
    assert SealedAs(f, past, envs[k], SegBinding(b, h, k));
    j, s :| 0 <= j < |past| && Seals(past[j], s) && s.b == SegBinding(b, h, k) && Usable(s.b)
      && SealState(f, s.state, s.b, s.d) == Ok(envs[k]);
    SealedIsBacked(f, past, j, s, envs[k]);
  }

  lemma SealedFramesUnforged(f: Lib, past: seq<Event>, b: Binding, h: StreamHeader, envs: seq<Bytes>)
    requires AllSealed(f, past, b, h, envs)
    ensures Unforged(f, past, HeaderBytes(h) + Frames(envs), b)
  {
    forall h', asked | Asks(f, HeaderBytes(h) + Frames(envs), b, h', asked)
      ensures Backed(f, past, asked[|asked| - 1], SegBinding(b, h', |asked| - 1))
    {
      var j, s := AskedWasSealed(f, past, b, h, envs, h', asked);
    }
  }

  /** A salt is derived with under one binding only. */
  ghost predicate SaltsTell(f: Lib, past: seq<Event>) {
    forall x, y, salt :: DerivedIn(f, past, x, salt) && DerivedIn(f, past, y, salt) ==> x == y
  }

  lemma PresentedDerives(f: Lib, past: seq<Event>, b: Binding, h: StreamHeader, envs: seq<Bytes>, x: Binding,
                         salt: Salt)
    requires AllSealed(f, past, b, h, envs)
    requires DerivedIn(f, past + [Presented(HeaderBytes(h) + Frames(envs), b)], x, salt)
    ensures DerivedIn(f, past, x, salt)
  {
    var ev := Presented(HeaderBytes(h) + Frames(envs), b);
    var run := past + [ev];
    var i :| 0 <= i < |run| && Derives(f, run[i], x, salt);
    if i == |past| {
      var h', asked :| Asks(f, ev.c, b, h', asked) && x == SegBinding(b, h', |asked| - 1)
        && salt == Parse(asked[|asked| - 1]).value.salt;
      var j, s := AskedWasSealed(f, past, b, h, envs, h', asked);
      assert Derives(f, past[j], x, salt);
    } else {
      assert Derives(f, past[i], x, salt);
    }
  }

  lemma SealedFramesNoCollision(f: Lib, past: seq<Event>, b: Binding, h: StreamHeader, envs: seq<Bytes>)
    requires AllSealed(f, past, b, h, envs) && SaltsTell(f, past)
    ensures !HasCollision(f, past + [Presented(HeaderBytes(h) + Frames(envs), b)])
  {
    var run := past + [Presented(HeaderBytes(h) + Frames(envs), b)];
    forall x, y, salt | DerivedIn(f, run, x, salt) && DerivedIn(f, run, y, salt) && Usable(x)
      ensures x == y && FindCollision(f, x, y, salt).None?
    {
      PresentedDerives(f, past, b, h, envs, x, salt);
      PresentedDerives(f, past, b, h, envs, y, salt);
    }
  }

  lemma CallDerives(f: Lib, ev: Event, x: Binding, salt: Salt) returns (i: nat)
    requires ev.SealedChunked? && Derives(f, ev, x, salt)
    ensures Sealable(ev.state, ev.b, ev.size) && i < |Plan(|ev.state|, ev.size)|
    ensures x == SegBinding(ev.b, HeaderFor(ev.id, |ev.state|, ev.size), i) && salt == ev.draws(i).salt
  {
    var s :| Seals(ev, s) && s.b == x && s.d.salt == salt;
    i :| 0 <= i < |Plan(|ev.state|, ev.size)| && s == SegmentSealing(ev.state, ev.b, ev.size, ev.id, ev.draws, i);
  }

  lemma CallSealed(f: Lib, past: seq<Event>, j: nat, k: nat)
    requires j < |past| && past[j].SealedChunked? && Sealable(past[j].state, past[j].b, past[j].size)
    requires k < |Plan(|past[j].state|, past[j].size)|
    ensures var ev := past[j];
            SealedAs(f, past, EnvelopeAt(f, ev.state, ev.b, ev.size, ev.id, ev.draws, k),
                     SegBinding(ev.b, HeaderFor(ev.id, |ev.state|, ev.size), k))
  {
    var ev := past[j];
    assert Seals(ev, SegmentSealing(ev.state, ev.b, ev.size, ev.id, ev.draws, k));
  }

  /** All that the theorems above ask of a presentation but the guard on direct seals. */
  ghost predicate MeetsTheRest(f: Lib, past: seq<Event>, c: Bytes, b: Binding) {
    && DistinctStreams(past + [Presented(c, b)]) && Unforged(f, past, c, b)
    && !HasCollision(f, past + [Presented(c, b)])
  }

  lemma SealedFramesMeetTheRest(f: Lib, past: seq<Event>, b: Binding, h: StreamHeader, envs: seq<Bytes>)
    requires AllSealed(f, past, b, h, envs) && SaltsTell(f, past) && DistinctStreams(past)
    ensures MeetsTheRest(f, past, HeaderBytes(h) + Frames(envs), b)
  {
    SealedFramesUnforged(f, past, b, h, envs);
    SealedFramesNoCollision(f, past, b, h, envs);
  }

  /** The segments of a call drew distinct salts. */
  predicate DistinctSalts(ev: Event)
    requires ev.SealedChunked? && ev.size > 0
  {
    forall i, j :: 0 <= i < j < |Plan(|ev.state|, ev.size)| ==> ev.draws(i).salt != ev.draws(j).salt
  }

  /** Sealing with distinct salts and presenting the container is a run that meets every hypothesis above,
    * whatever the library: no property of its hashes or cipher beyond `Lawful` is needed. */
  lemma HonestRunMeetsHypotheses(f: Lib, ev: Event)
    requires ev.SealedChunked? && Sealable(ev.state, ev.b, ev.size) && DistinctSalts(ev)
    ensures var c := Container(f, ev.state, ev.b, ev.size, ev.id, ev.draws);
            && MeetsTheRest(f, [ev], c, ev.b) && NamesNoSegment([ev], c, ev.b)
            && OpenContainer(f, c, ev.b) == Ok(ev.state)
  {
    var h, envs := HeaderFor(ev.id, |ev.state|, ev.size), Envelopes(f, ev.state, ev.b, ev.size, ev.id, ev.draws);
    ContainerRoundTrip(f, ev.state, ev.b, ev.size, ev.id, ev.draws);
    forall k | 0 <= k < |envs|
      ensures SealedAs(f, [ev], envs[k], SegBinding(ev.b, h, k))
    {
      CallSealed(f, [ev], 0, k);
    }
    forall x, y, salt | DerivedIn(f, [ev], x, salt) && DerivedIn(f, [ev], y, salt)
      ensures x == y
    {
      var i := CallDerives(f, ev, x, salt);
      var j := CallDerives(f, ev, y, salt);
    }
    SealedFramesMeetTheRest(f, [ev], ev.b, h, envs);
  }

  // Naming a segment directly

  /** The hypotheses on direct seals cannot be dropped.  A caller who seals directly under a segment's binding has
    * that segment sealed: a container framed around the envelope opens although no chunked seal ever ran, and every
    * other hypothesis holds of that run. */
  lemma DirectSealCanNameASegment(f: Lib, state: Bytes, b: Binding, h: StreamHeader, d: Draw)
    requires state != [] && |state| <= MAX_STATE && Usable(b) && |b.context| + 74 <= MAX_LP_FIELD
    requires h.count == 1 && h.totalLen == |state|
    ensures var sb := SegBinding(b, h, 0);
            var sealed := SealState(f, state, sb, d);
            sealed.Ok? && STREAM_DOMAIN <= sb.context &&
            var c := HeaderBytes(h) + Frames([sealed.value]);
            MeetsTheRest(f, [Sealed(state, sb, d)], c, b) && OpenContainer(f, c, b) == Ok(state)
  {
    var sb := SegBinding(b, h, 0);
    var past := [Sealed(state, sb, d)];
    SealSucceedsIff(f, state, sb, d);
    var e := SealState(f, state, sb, d).value;
    SegContextDomain(b.context, h, 0);
    assert Seals(past[0], Sealing(state, sb, d));
    assert SealedAs(f, past, [e][0], SegBinding(b, h, 0));
    SealedFramesMeetTheRest(f, past, b, h, [e]);
    SealRoundTrip(f, state, sb, d);
    OpensAsOne(SegmentOpener(f, b, h), e, state);
    ConcatOne(state);
    FramedRuns(f, HeaderBytes(h) + Frames([e]), b, h, [e], [state]);
  }

  /** The call seals a segment `k`. */
  predicate HasSegment(ev: Event, k: nat) {
    ev.SealedChunked? && Sealable(ev.state, ev.b, ev.size) && k < |Plan(|ev.state|, ev.size)|
  }

  function Place(ev: Event, k: nat): Binding
    requires HasSegment(ev, k)
  {
    SegBinding(ev.b, HeaderFor(ev.id, |ev.state|, ev.size), k)
  }

  function SplicedEnvelopes(f: Lib, ev: Event, k: nat, e: Bytes): (envs: seq<Bytes>)
    requires HasSegment(ev, k)
  {
    Envelopes(f, ev.state, ev.b, ev.size, ev.id, ev.draws)[k := e]
  }

  /** The call's container with the envelope of a direct seal in place `k`. */
  function Spliced(f: Lib, ev: Event, k: nat, e: Bytes): Bytes
    requires HasSegment(ev, k)
  {
    HeaderBytes(HeaderFor(ev.id, |ev.state|, ev.size)) + Frames(SplicedEnvelopes(f, ev, k, e))
  }

  /** The call's state with its segment `k` exchanged. */
  function SplicedState(ev: Event, k: nat, m: Bytes): Bytes
    requires HasSegment(ev, k)
  {
    Concat(Slices(ev.state, Plan(|ev.state|, ev.size))[k := m])
  }

  lemma {:induction false} ConcatReplace(parts: seq<Bytes>, k: nat, m: Bytes)
    requires k < |parts| && |m| == |parts[k]|
    ensures |Concat(parts[k := m])| == |Concat(parts)|
  {
    if k > 0 {
      ConcatReplace(parts[1..], k - 1, m);
      assert parts[k := m][1..] == parts[1..][k - 1 := m];
    } else {
      assert parts[k := m][1..] == parts[1..];
    }
  }

  lemma SplicedOpens(f: Lib, ev: Event, k: nat, m: Bytes, d: Draw, e: Bytes)
    requires HasSegment(ev, k) && |m| == |SegmentOf(ev.state, ev.size, k)|
    requires SealState(f, m, Place(ev, k), d) == Ok(e)
    ensures OpenContainer(f, Spliced(f, ev, k, e), ev.b) == Ok(SplicedState(ev, k, m))
  {
    var h, parts := HeaderFor(ev.id, |ev.state|, ev.size), Slices(ev.state, Plan(|ev.state|, ev.size));
    var envs, open := SplicedEnvelopes(f, ev, k, e), SegmentOpener(f, ev.b, h);
    SealRoundTrip(f, m, Place(ev, k), d);
    forall i | 0 <= i < |envs|
      ensures open(i, envs[i]) == Ok(parts[k := m][i])
    {
      EnvelopeOpens(f, ev.state, ev.b, ev.size, ev.id, ev.draws, i);
    }
    OpensAsFromStart(open, envs, parts[k := m]);
    FramedRuns(f, Spliced(f, ev, k, e), ev.b, h, envs, parts[k := m]);
    ConcatReplace(parts, k, m);
    PlanPartitions(ev.state, ev.size);
  }

  lemma SplicedSealed(f: Lib, ev: Event, k: nat, m: Bytes, d: Draw, e: Bytes)
    requires HasSegment(ev, k) && |m| == |SegmentOf(ev.state, ev.size, k)|
    requires SealState(f, m, Place(ev, k), d) == Ok(e)
    ensures AllSealed(f, [ev, Sealed(m, Place(ev, k), d)], ev.b, HeaderFor(ev.id, |ev.state|, ev.size),
                      SplicedEnvelopes(f, ev, k, e))
  {
    var past, envs := [ev, Sealed(m, Place(ev, k), d)], SplicedEnvelopes(f, ev, k, e);
    SealSucceedsIff(f, m, Place(ev, k), d);
    assert Seals(past[1], Sealing(m, Place(ev, k), d));
    forall i | 0 <= i < |envs|
      ensures SealedAs(f, past, envs[i], Place(ev, i)) && |envs[i]| < U64_LIMIT
    {
      CallSealed(f, past, 0, i);
    }
  }

  lemma SplicedDerives(f: Lib, ev: Event, k: nat, m: Bytes, d: Draw, x: Binding, salt: Salt) returns (i: nat)
    requires HasSegment(ev, k) && DerivedIn(f, [ev, Sealed(m, Place(ev, k), d)], x, salt)
    ensures HasSegment(ev, i) && x == Place(ev, i) && (salt == ev.draws(i).salt || (i == k && salt == d.salt))
  {
    var past := [ev, Sealed(m, Place(ev, k), d)];
    var j :| 0 <= j < |past| && Derives(f, past[j], x, salt);
    if j == 0 {
      i := CallDerives(f, ev, x, salt);
    } else {
      i := k;
    }
  }

  lemma SplicedSaltsTell(f: Lib, ev: Event, k: nat, m: Bytes, d: Draw)
    requires HasSegment(ev, k) && DistinctSalts(ev)
    requires forall i :: HasSegment(ev, i) && i != k ==> ev.draws(i).salt != d.salt
    ensures SaltsTell(f, [ev, Sealed(m, Place(ev, k), d)])
  {
    var past := [ev, Sealed(m, Place(ev, k), d)];
    forall x, y, salt | DerivedIn(f, past, x, salt) && DerivedIn(f, past, y, salt)
      ensures x == y
    {
      var i := SplicedDerives(f, ev, k, m, d, x, salt);
      var j := SplicedDerives(f, ev, k, m, d, y, salt);
    }
  }

  lemma SplicedDiffers(ev: Event, k: nat, m: Bytes)
    requires HasSegment(ev, k) && |m| == |SegmentOf(ev.state, ev.size, k)|
    ensures SplicedState(ev, k, m) == ev.state <==> m == SegmentOf(ev.state, ev.size, k)
  {
    var parts := Slices(ev.state, Plan(|ev.state|, ev.size));
    PlanPartitions(ev.state, ev.size);
    assert m == parts[k] ==> parts[k := m] == parts;
    if SplicedState(ev, k, m) == ev.state {
      SameLengthsSameParts(parts[k := m], parts);
    }
  }

  lemma SplicedMeetsTheRest(f: Lib, ev: Event, k: nat, m: Bytes, d: Draw, e: Bytes)
    requires HasSegment(ev, k) && DistinctSalts(ev) && |m| == |SegmentOf(ev.state, ev.size, k)|
    requires forall i :: HasSegment(ev, i) && i != k ==> ev.draws(i).salt != d.salt
    requires SealState(f, m, Place(ev, k), d) == Ok(e)
    ensures MeetsTheRest(f, [ev, Sealed(m, Place(ev, k), d)], Spliced(f, ev, k, e), ev.b)
  {
    SplicedSealed(f, ev, k, m, d, e);
    SplicedSaltsTell(f, ev, k, m, d);
    SealedFramesMeetTheRest(f, [ev, Sealed(m, Place(ev, k), d)], ev.b, HeaderFor(ev.id, |ev.state|, ev.size),
                            SplicedEnvelopes(f, ev, k, e));
  }

  /** Nor is it a matter of one-segment containers: into any place of any call's container a direct seal under that
    * segment's binding, of any state as long as the segment, can be spliced, and the result opens to the call's state
    * with just that segment exchanged, although the run meets every other hypothesis. */
  lemma DirectSealCanBeSpliced(f: Lib, ev: Event, k: nat, m: Bytes, d: Draw, e: Bytes)
    requires HasSegment(ev, k) && DistinctSalts(ev) && |m| == |SegmentOf(ev.state, ev.size, k)|
    requires forall i :: HasSegment(ev, i) && i != k ==> ev.draws(i).salt != d.salt
    requires SealState(f, m, Place(ev, k), d) == Ok(e)
    ensures var past, c := [ev, Sealed(m, Place(ev, k), d)], Spliced(f, ev, k, e);
            MeetsTheRest(f, past, c, ev.b) && OpenContainer(f, c, ev.b) == Ok(SplicedState(ev, k, m))
  {
    SplicedOpens(f, ev, k, m, d, e);
    SplicedMeetsTheRest(f, ev, k, m, d, e);
  }

  /** Such a container is one that no call returned, unless the segment was exchanged for itself. */
  lemma SplicedNotReturned(f: Lib, ev: Event, k: nat, m: Bytes, d: Draw, e: Bytes, r: Bytes)
    requires HasSegment(ev, k) && |m| == |SegmentOf(ev.state, ev.size, k)| && m != SegmentOf(ev.state, ev.size, k)
    requires SealState(f, m, Place(ev, k), d) == Ok(e)
    ensures !Returned(f, ev, Spliced(f, ev, k, e), ev.b, r)
            && !Returned(f, Sealed(m, Place(ev, k), d), Spliced(f, ev, k, e), ev.b, r)
  {
    SplicedOpens(f, ev, k, m, d, e);
    SplicedDiffers(ev, k, m);
    ContainerRoundTrip(f, ev.state, ev.b, ev.size, ev.id, ev.draws);
  }
}
