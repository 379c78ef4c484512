/** What opening a container accepts, and what sealing one guarantees. */
module StreamTheorems {
  import opened Results
  import opened ByteStrings
  import opened Primitives
  import opened Envelope
  import opened StreamFormat
  import opened Framing
  import opened Stream
  import opened Commitment

  // The grammar

  /** `c` is a header and exactly as many frames as it counts, each opening under its own segment context. */
  predicate Framed(f: Lib, c: Bytes, b: Binding, h: StreamHeader, envs: seq<Bytes>, parts: seq<Bytes>) {
    && h.count >= 1 && (h.totalLen == 0 ==> h.count == 1)
    && |envs| == h.count
    && c == HeaderBytes(h) + Frames(envs)
    && OpensAs(SegmentOpener(f, b, h), 0, envs, parts)
  }

  /** The header of `c` is admitted, and its first frames, as many as there are envelopes, open in their places;
    * nothing is said of the bytes behind them. */
  predicate OpensPrefix(f: Lib, c: Bytes, b: Binding, h: StreamHeader, envs: seq<Bytes>, parts: seq<Bytes>) {
    && AdmitHeader(c) == Ok(h) && |envs| <= h.count && HeaderBytes(h) + Frames(envs) <= c && Sized(envs)
    && OpensAs(SegmentOpener(f, b, h), 0, envs, parts)
  }

  lemma OpenedSegment(f: Lib, b: Binding, h: StreamHeader, envs: seq<Bytes>, parts: seq<Bytes>, k: nat)
    requires OpensAs(SegmentOpener(f, b, h), 0, envs, parts) && k < |envs| <= h.count
    ensures |parts| == |envs| && UnsealState(f, envs[k], SegBinding(b, h, k)) == Ok(parts[k])
    ensures Usable(SegBinding(b, h, k)) && |parts[k]| <= MAX_STATE && |envs[k]| == ENVELOPE_OVERHEAD + |parts[k]|
    ensures OpenSegment(f, b, h, k, envs[k]).Ok?
  {
    OpensAsAt(SegmentOpener(f, b, h), 0, envs, parts, k);
    UnsealIffSealed(f, envs[k], SegBinding(b, h, k), parts[k]);
    SealSucceedsIff(f, parts[k], SegBinding(b, h, k), DrawOf(envs[k]));
  }

  /** Each framed envelope opens to its part under its segment's binding, and has its length. */
  lemma FramedSegment(f: Lib, c: Bytes, b: Binding, h: StreamHeader, envs: seq<Bytes>, parts: seq<Bytes>, k: nat)
    requires Framed(f, c, b, h, envs, parts) && k < |envs|
    ensures |parts| == |envs| && UnsealState(f, envs[k], SegBinding(b, h, k)) == Ok(parts[k])
    ensures Usable(SegBinding(b, h, k)) && |parts[k]| <= MAX_STATE && |envs[k]| == ENVELOPE_OVERHEAD + |parts[k]|
  {
    OpenedSegment(f, b, h, envs, parts, k);
  }

  lemma {:induction false} FramesLength(envs: seq<Bytes>, parts: seq<Bytes>)
    requires |envs| == |parts|
    requires forall k :: 0 <= k < |envs| ==> |envs[k]| == ENVELOPE_OVERHEAD + |parts[k]|
    ensures |Frames(envs)| == (FRAME_LEN + ENVELOPE_OVERHEAD) * |envs| + |Concat(parts)|
  {
    if envs != [] {
      FramesLength(envs[1..], parts[1..]);
    }
  }

  /** The length of anything framed: 45 bytes, 93 for every segment, and the state.  So the guard on the
    * declared segment count never refuses it. */
  lemma FramedLength(f: Lib, c: Bytes, b: Binding, h: StreamHeader, envs: seq<Bytes>, parts: seq<Bytes>)
    requires Framed(f, c, b, h, envs, parts)
    ensures |parts| == |envs| && |c| == 45 + 93 * h.count + |Concat(parts)| && Sized(envs)
    ensures h.count <= (|c| - STREAM_HEADER_LEN) / (FRAME_LEN + 1)
  {
    FramedSegment(f, c, b, h, envs, parts, 0);
    forall k | 0 <= k < |envs|
      ensures |envs[k]| == ENVELOPE_OVERHEAD + |parts[k]| && |envs[k]| < U64_LIMIT
    {
      FramedSegment(f, c, b, h, envs, parts, k);
    }
    FramesLength(envs, parts);
  }

  /** Framed bytes pass every check before the loop, and the loop ends on their last byte. */
  lemma FramedRuns(f: Lib, c: Bytes, b: Binding, h: StreamHeader, envs: seq<Bytes>, parts: seq<Bytes>)
    requires Framed(f, c, b, h, envs, parts)
    ensures AdmitHeader(c) == Ok(h)
    ensures OpenFrames(SegmentOpener(f, b, h), c, h.count, 0, STREAM_HEADER_LEN) == Opened(parts, |c|)
  {
    FramedLength(f, c, b, h, envs, parts);
    Cut(c, HeaderBytes(h), Frames(envs));
    ParseHeaderIffPrinted(c, h);
    assert AdmitHeader(c) == Ok(h);
    FramesOpen(SegmentOpener(f, b, h), c, h.count, 0, STREAM_HEADER_LEN, |c|, envs, parts);
  }

  /** A run that opens every segment and ends on the last byte shows the framing. */
  lemma RunIsFramed(f: Lib, c: Bytes, b: Binding, h: StreamHeader) returns (envs: seq<Bytes>, parts: seq<Bytes>)
    requires AdmitHeader(c) == Ok(h)
    requires var run := OpenFrames(SegmentOpener(f, b, h), c, h.count, 0, STREAM_HEADER_LEN);
             run.Opened? && run.off == |c|
    ensures Framed(f, c, b, h, envs, parts)
    ensures OpenFrames(SegmentOpener(f, b, h), c, h.count, 0, STREAM_HEADER_LEN) == Opened(parts, |c|)
  {
    parts := OpenFrames(SegmentOpener(f, b, h), c, h.count, 0, STREAM_HEADER_LEN).parts;
    envs := OpenedFrames(SegmentOpener(f, b, h), c, h.count, 0, STREAM_HEADER_LEN);
    ParseHeaderIffPrinted(c, h);
    Cut(c, HeaderBytes(h), Frames(envs));
  }

  lemma OpenedLength(f: Lib, b: Binding, h: StreamHeader, envs: seq<Bytes>, parts: seq<Bytes>)
    requires OpensAs(SegmentOpener(f, b, h), 0, envs, parts) && |envs| <= h.count
    ensures |parts| == |envs| && |Frames(envs)| == 93 * |envs| + |Concat(parts)|
  {
    forall k | 0 <= k < |envs|
      ensures |parts| == |envs| && |envs[k]| == ENVELOPE_OVERHEAD + |parts[k]|
    {
      OpenedSegment(f, b, h, envs, parts, k);
    }
    FramesLength(envs, parts);
  }

  /** The work on arbitrary bytes is bounded, whatever comes of them: the slices opened before the loop ends or fails
    * stand one behind the other inside the container, each with 93 bytes beside its plaintext, and the segments asked
    * for are at most one for every nine bytes. */
  lemma WorkIsBounded(f: Lib, c: Bytes, b: Binding, h: StreamHeader) returns (envs: seq<Bytes>, parts: seq<Bytes>)
    requires AdmitHeader(c) == Ok(h)
    ensures OpensPrefix(f, c, b, h, envs, parts)
    ensures |envs| <= h.count <= (|c| - STREAM_HEADER_LEN) / (FRAME_LEN + 1)
    ensures match OpenFrames(SegmentOpener(f, b, h), c, h.count, 0, STREAM_HEADER_LEN)
            case Opened(segments, off) =>
              |envs| == h.count && parts == segments && off == 45 + 93 * |envs| + |Concat(parts)| <= |c|
            case Failed(_, index, seen) =>
              |envs| == index < h.count && 45 + 93 * |envs| + |Concat(parts)| <= seen <= |c|
  {
    var open := SegmentOpener(f, b, h);
    var run := OpenFrames(open, c, h.count, 0, STREAM_HEADER_LEN);
    var at;
    if run.Opened? {
      envs := OpenedFrames(open, c, h.count, 0, STREAM_HEADER_LEN);
      parts, at := run.parts, run.off;
    } else {
      envs, parts, at := FailedFrames(open, c, h.count, 0, STREAM_HEADER_LEN);
    }
    ParseHeaderIffPrinted(c, h);
    Join(c, 0, STREAM_HEADER_LEN, at);
    OpenedLength(f, b, h, envs, parts);
  }

  /** Opening refines the grammar in both directions. */
  lemma OpensIffFramed(f: Lib, c: Bytes, b: Binding, m: Bytes)
    ensures OpenContainer(f, c, b) == Ok(m) <==>
            exists h, envs, parts ::
              Framed(f, c, b, h, envs, parts) && m == Concat(parts) && |m| == h.totalLen
  {
    if OpenContainer(f, c, b) == Ok(m) {
      var envs, parts := RunIsFramed(f, c, b, AdmitHeader(c).value);
    }
    forall h, envs, parts | Framed(f, c, b, h, envs, parts) && m == Concat(parts) && |m| == h.totalLen
      ensures OpenContainer(f, c, b) == Ok(m)
    {
      FramedRuns(f, c, b, h, envs, parts);
    }
  }

  /** A container has at most one decomposition, whatever it is opened under. */
  lemma FramingUnique(f: Lib, c: Bytes, b1: Binding, h1: StreamHeader, envs1: seq<Bytes>, parts1: seq<Bytes>,
                      b2: Binding, h2: StreamHeader, envs2: seq<Bytes>, parts2: seq<Bytes>)
    requires Framed(f, c, b1, h1, envs1, parts1) && Framed(f, c, b2, h2, envs2, parts2)
    ensures h1 == h2 && envs1 == envs2
    ensures b1 == b2 ==> parts1 == parts2
  {
    FramedRuns(f, c, b1, h1, envs1, parts1);
    FramedRuns(f, c, b2, h2, envs2, parts2);
    FramedLength(f, c, b1, h1, envs1, parts1);
    FramedLength(f, c, b2, h2, envs2, parts2);
    Split(HeaderBytes(h1), Frames(envs1), HeaderBytes(h2), Frames(envs2));
    FramesInjective(envs1, envs2);
  }

  // Round trip and size

  lemma EnvelopeOpens(f: Lib, state: Bytes, b: Binding, size: int, id: StreamId, draws: nat -> Draw, k: nat)
    requires Sealable(state, b, size) && k < |Plan(|state|, size)|
    ensures SegmentOpener(f, b, HeaderFor(id, |state|, size))(k, EnvelopeAt(f, state, b, size, id, draws, k)) ==
            Ok(SegmentOf(state, size, k))
  {
    SealRoundTrip(f, SegmentOf(state, size, k), SegBinding(b, HeaderFor(id, |state|, size), k), draws(k));
  }

  /** A sealed container is framed: its own envelopes open, in order, to the slices of its plan. */
  lemma ContainerFramed(f: Lib, state: Bytes, b: Binding, size: int, id: StreamId, draws: nat -> Draw)
    requires Sealable(state, b, size)
    ensures Framed(f, Container(f, state, b, size, id, draws), b, HeaderFor(id, |state|, size),
                   Envelopes(f, state, b, size, id, draws), Slices(state, Plan(|state|, size)))
  {
    var h, envs := HeaderFor(id, |state|, size), Envelopes(f, state, b, size, id, draws);
    var parts := Slices(state, Plan(|state|, size));
    forall k | 0 <= k < |envs|
      ensures SegmentOpener(f, b, h)(k, envs[k]) == Ok(parts[k])
    {
      EnvelopeOpens(f, state, b, size, id, draws, k);
    }
    OpensAsFromStart(SegmentOpener(f, b, h), envs, parts);
  }

  /** Opening undoes sealing: every state, the empty one included, every legal size and every draw. */
  lemma ContainerRoundTrip(f: Lib, state: Bytes, b: Binding, size: int, id: StreamId, draws: nat -> Draw)
    requires Sealable(state, b, size)
    ensures OpenContainer(f, Container(f, state, b, size, id, draws), b) == Ok(state)
  {
    ContainerFramed(f, state, b, size, id, draws);
    FramedRuns(f, Container(f, state, b, size, id, draws), b, HeaderFor(id, |state|, size),
               Envelopes(f, state, b, size, id, draws), Slices(state, Plan(|state|, size)));
    PlanPartitions(state, size);
  }

  /** A container is 45 bytes, 93 for each of the ceil(L / C) segments (one when L is zero), and the state. */
  lemma ContainerLength(f: Lib, state: Bytes, b: Binding, size: int, id: StreamId, draws: nat -> Draw)
    requires Sealable(state, b, size)
    ensures |Container(f, state, b, size, id, draws)| == 45 + 93 * SegmentCount(|state|, size) + |state|
  {
    ContainerFramed(f, state, b, size, id, draws);
    FramedLength(f, Container(f, state, b, size, id, draws), b, HeaderFor(id, |state|, size),
                 Envelopes(f, state, b, size, id, draws), Slices(state, Plan(|state|, size)));
    PlanPartitions(state, size);
  }

  // What a sealed container holds, byte for byte

  /** Segment `i` is the bytes of the state from `i * size` on, as many as the size or as are left. */
  lemma SegmentSlice(state: Bytes, size: nat, i: nat) returns (lo: nat, hi: nat)
    requires size > 0 && i < |Plan(|state|, size)|
    ensures |Plan(|state|, size)| == SegmentCount(|state|, size)
    ensures lo == i * size && hi == (if lo + size <= |state| then lo + size else |state|) && lo <= hi
    ensures SegmentOf(state, size, i) == state[lo..hi]
  {
    PlanPartitions(state, size);
    lo, hi := i * size, Min(i * size + size, |state|);
    assert Plan(|state|, size)[i] == (lo, hi);
  }

  /** It is sealed under the caller's secret, fingerprint and epoch and the context that names its place, with its own
    * draw. */
  lemma SegmentSealedUnder(f: Lib, state: Bytes, b: Binding, size: int, id: StreamId, draws: nat -> Draw, i: nat)
    returns (x: Bytes)
    requires Sealable(state, b, size) && i < |Plan(|state|, size)|
    ensures NamesPlace(x, b.context, id, i, |Plan(|state|, size)|, |state|, size)
    ensures SealState(f, SegmentOf(state, size, i), Binding(b.secret, b.memh, b.epoch, x), draws(i)) ==
            Ok(EnvelopeAt(f, state, b, size, id, draws, i))
  {
    var h := HeaderFor(id, |state|, size);
    x := SegContext(b.context, h, i);
    SegContextNames(b.context, h, i);
    SegBindingIs(b, h, i, x);
  }

  /** And opened just so. */
  lemma SegmentOpenedUnder(f: Lib, b: Binding, h: StreamHeader, i: u64, e: Bytes, x: Bytes)
    requires |b.context| < 4294967296
    requires NamesPlace(x, b.context, h.id, i, h.count, h.totalLen, h.segmentSize)
    ensures OpenSegment(f, b, h, i, e) == UnsealState(f, e, Binding(b.secret, b.memh, b.epoch, x))
  {
    SegBindingIs(b, h, i, x);
  }

  lemma {:induction false} FullParts(parts: seq<Bytes>, size: nat)
    requires forall k :: 0 <= k < |parts| ==> |parts[k]| == size
    ensures |Concat(parts)| == |parts| * size
  {
    if parts != [] {
      FullParts(parts[1..], size);
      assert |parts| * size == size + |parts[1..]| * size;
    }
  }

  /** The frames of full segments stand at equal distances. */
  lemma FrameOffset(f: Lib, state: Bytes, b: Binding, size: int, id: StreamId, draws: nat -> Draw, i: nat)
    requires Sealable(state, b, size) && i < |Plan(|state|, size)|
    ensures |Frames(Envelopes(f, state, b, size, id, draws)[..i])| == i * (93 + size)
  {
    var envs, parts := Envelopes(f, state, b, size, id, draws)[..i], Slices(state, Plan(|state|, size))[..i];
    forall k | 0 <= k < i
      ensures |parts[k]| == size && |envs[k]| == ENVELOPE_OVERHEAD + |parts[k]|
    {
      SegmentsFull(state, size, k);
    }
    FramesLength(envs, parts);
    FullParts(parts, size);
    assert 93 * i + i * size == i * (93 + size);
  }

  /** One frame in a container. */
  lemma FrameStands(head: Bytes, envs: seq<Bytes>, i: nat)
    requires i < |envs|
    ensures var c, at := head + Frames(envs), |head| + |Frames(envs[..i])|;
            at + 8 + |envs[i]| <= |c| && c[at..at + 8] == BigEndian(|envs[i]|, 8)
            && c[at + 8..at + 8 + |envs[i]|] == envs[i]
  {
    var c, before := head + Frames(envs), head + Frames(envs[..i]);
    FramesOfPrefix(head, envs, i + 1);
    FramesSnoc(envs[..i], envs[i]);
    assert envs[..i + 1] == envs[..i] + [envs[i]];
    Associative(head, Frames(envs[..i]), Frame(envs[i]));
    Associative(before, BigEndian(|envs[i]|, 8), envs[i]);
    Last(before + BigEndian(|envs[i]|, 8), envs[i], c);
    Last(before, BigEndian(|envs[i]|, 8), c);
  }

  /** A sealed container begins with magic, version, stream id, segment count, segment size and total length. */
  lemma SealedHeaderLayout(f: Lib, state: Bytes, b: Binding, size: int, id: StreamId, draws: nat -> Draw)
    requires Sealable(state, b, size)
    ensures var c, n := Container(f, state, b, size, id, draws), SegmentCount(|state|, size);
            && |c| == 45 + 93 * n + |state|
            && c[..45] == [0x53, 0x43, 0x45, 0x53, 0x01] + id + BigEndian(n, 8) + BigEndian(size, 8)
                          + BigEndian(|state|, 8)
  {
    var h := HeaderFor(id, |state|, size);
    PlanPartitions(state, size);
    ContainerLength(f, state, b, size, id, draws);
    StreamHeaderLayout(h, Frames(Envelopes(f, state, b, size, id, draws)));
    assert STREAM_MAGIC + [STREAM_VERSION] == [0x53, 0x43, 0x45, 0x53, 0x01];
  }

  /** Behind it, at equal distances, stand for each segment the length of its envelope in eight bytes and the envelope,
    * which is 85 bytes longer than its part of the state. */
  lemma SealedFrameLayout(f: Lib, state: Bytes, b: Binding, size: int, id: StreamId, draws: nat -> Draw, i: nat)
    returns (at: nat)
    requires Sealable(state, b, size) && i < |Plan(|state|, size)|
    ensures at == 45 + i * (93 + size)
    ensures var c, e := Container(f, state, b, size, id, draws), EnvelopeAt(f, state, b, size, id, draws, i);
            && |e| == 85 + |SegmentOf(state, size, i)| && at + 8 + |e| <= |c|
            && c[at..at + 8] == BigEndian(|e|, 8) && c[at + 8..at + 8 + |e|] == e
  {
    var envs := Envelopes(f, state, b, size, id, draws);
    at := 45 + |Frames(envs[..i])|;
    FrameOffset(f, state, b, size, id, draws, i);
    FrameStands(HeaderBytes(HeaderFor(id, |state|, size)), envs, i);
  }

  /** Every outcome of a chunked seal, with its exact condition. */
  lemma SealClasses(f: Lib, state: Bytes, b: Binding, size: int, id: StreamId, draws: nat -> Draw)
    ensures var r := SealOutcome(f, state, b, size, id, draws);
            var sized, limit := 0 < size <= 4294967279, 0x1_0000_0000_0000_0000;
            && (r.Ok? <==>
                 && sized && |state| < limit && |b.secret| >= 16 && 0 <= b.epoch < limit
                 && |b.context| <= 4294967221)
            && (r == Err(NativeError) <==> sized && (|state| >= limit || |b.context| >= 4294967296))
            && (r.Err? && r.error != NativeError ==> r.error == SceError)
  {
  }

  lemma SegmentCountMonotone(m: nat, n: nat, size: nat)
    requires size > 0 && m <= n
    ensures SegmentCount(m, size) <= SegmentCount(n, size)
  {
    if m > 0 {
      CeilBounds(m, size);
      CeilBounds(n, size);
      MulMonotone(SegmentCount(m, size) - 1, SegmentCount(n, size), size);
    } else if n > 0 {
      CeilBounds(n, size);
      MulMonotone(0, SegmentCount(n, size), size);
    }
  }

  /** For one segment size a longer state has a longer container, so a container's length tells its state's. */
  lemma LengthTellsLength(f: Lib, size: int, s1: Bytes, b1: Binding, id1: StreamId, d1: nat -> Draw,
                          s2: Bytes, b2: Binding, id2: StreamId, d2: nat -> Draw)
    requires Sealable(s1, b1, size) && Sealable(s2, b2, size)
    ensures |Container(f, s1, b1, size, id1, d1)| < |Container(f, s2, b2, size, id2, d2)| <==> |s1| < |s2|
  {
    ContainerLength(f, s1, b1, size, id1, d1);
    ContainerLength(f, s2, b2, size, id2, d2);
    if |s1| <= |s2| {
      SegmentCountMonotone(|s1|, |s2|, size);
    } else {
      SegmentCountMonotone(|s2|, |s1|, size);
    }
  }

  // What a holder of the secret can build

  /** Segments of any lengths, sealed under correct contexts for a header of the holder's choosing. */
  function Assemble(f: Lib, b: Binding, h: StreamHeader, parts: seq<Bytes>, draws: nat -> Draw): (envs: seq<Bytes>)
    requires |b.context| + 74 <= MAX_LP_FIELD && Usable(b)
    requires forall p :: p in parts ==> |p| <= MAX_STATE
    ensures |envs| == |parts|
    ensures forall k :: 0 <= k < |parts| ==>
              SealState(f, parts[k], SegBinding(b, h, k), draws(k)) == Ok(envs[k])
  {
    forall k | 0 <= k < |parts|
      ensures SealState(f, parts[k], SegBinding(b, h, k), draws(k)).Ok?
    {
      SealSucceedsIff(f, parts[k], SegBinding(b, h, k), draws(k));
    }
    seq(|parts|, k requires 0 <= k < |parts| => SealState(f, parts[k], SegBinding(b, h, k), draws(k)).value)
  }

  lemma AssembledFramed(f: Lib, b: Binding, h: StreamHeader, parts: seq<Bytes>, draws: nat -> Draw)
    requires |b.context| + 74 <= MAX_LP_FIELD && Usable(b)
    requires forall p :: p in parts ==> |p| <= MAX_STATE
    requires |parts| == h.count >= 1 && (h.totalLen == 0 ==> h.count == 1)
    ensures var envs := Assemble(f, b, h, parts, draws);
            Framed(f, HeaderBytes(h) + Frames(envs), b, h, envs, parts)
  {
    var envs := Assemble(f, b, h, parts, draws);
    forall k | 0 <= k < |envs|
      ensures SegmentOpener(f, b, h)(k, envs[k]) == Ok(parts[k])
    {
      SealRoundTrip(f, parts[k], SegBinding(b, h, k), draws(k));
    }
    OpensAsFromStart(SegmentOpener(f, b, h), envs, parts);
  }

  /** Only the sum of the segment lengths is checked, never a length against the segment size: the total
    * decides alone whether such a container opens or ends in the final mismatch. */
  lemma OnlyTheSumIsChecked(f: Lib, b: Binding, h: StreamHeader, parts: seq<Bytes>, draws: nat -> Draw)
    requires |b.context| + 74 <= MAX_LP_FIELD && Usable(b)
    requires forall p :: p in parts ==> |p| <= MAX_STATE
    requires |parts| == h.count >= 1 && (h.totalLen == 0 ==> h.count == 1)
    ensures OpenContainer(f, HeaderBytes(h) + Frames(Assemble(f, b, h, parts, draws)), b) ==
            if |Concat(parts)| == h.totalLen then Ok(Concat(parts)) else Err(StateSealMismatch)
  {
    var envs := Assemble(f, b, h, parts, draws);
    AssembledFramed(f, b, h, parts, draws);
    FramedRuns(f, HeaderBytes(h) + Frames(envs), b, h, envs, parts);
  }

  /** The framed envelopes' lengths are those of the plan for the header's total and size.  This looks at the
    * header and the length of each frame, and opens nothing. */
  predicate FollowsPlan(h: StreamHeader, envs: seq<Bytes>) {
    && 0 < h.segmentSize <= MAX_STATE
    && |envs| == |Plan(h.totalLen, h.segmentSize)|
    && forall k :: 0 <= k < |envs| ==>
         var (lo, hi) := Plan(h.totalLen, h.segmentSize)[k]; |envs[k]| == ENVELOPE_OVERHEAD + hi - lo
  }

  ghost predicate Produced(f: Lib, c: Bytes, b: Binding) {
    exists state, size, id, draws ::
      Sealable(state, b, size) && c == Container(f, state, b, size, id, draws)
  }

  lemma {:induction false} SameLengthsSameParts(xs: seq<Bytes>, ys: seq<Bytes>)
    requires |xs| == |ys| && Concat(xs) == Concat(ys)
    requires forall k :: 0 <= k < |xs| ==> |xs[k]| == |ys[k]|
    ensures xs == ys
  {
    if xs != [] {
      Split(xs[0], Concat(xs[1..]), ys[0], Concat(ys[1..]));
      SameLengthsSameParts(xs[1..], ys[1..]);
      assert xs == [xs[0]] + xs[1..] && ys == [ys[0]] + ys[1..];
    }
  }

  lemma ProducedFollowsPlan(f: Lib, c: Bytes, b: Binding, h: StreamHeader, envs: seq<Bytes>, parts: seq<Bytes>,
                            state: Bytes, size: int, id: StreamId, draws: nat -> Draw)
    requires Framed(f, c, b, h, envs, parts)
    requires Sealable(state, b, size) && c == Container(f, state, b, size, id, draws)
    ensures FollowsPlan(h, envs)
  {
    ContainerFramed(f, state, b, size, id, draws);
    FramingUnique(f, c, b, h, envs, parts, b, HeaderFor(id, |state|, size),
                  Envelopes(f, state, b, size, id, draws), Slices(state, Plan(|state|, size)));
  }

  lemma PlannedSlices(h: StreamHeader, envs: seq<Bytes>, parts: seq<Bytes>)
    requires FollowsPlan(h, envs) && |Concat(parts)| == h.totalLen && |envs| == |parts|
    requires forall k :: 0 <= k < |envs| ==> |envs[k]| == ENVELOPE_OVERHEAD + |parts[k]|
    ensures parts == Slices(Concat(parts), Plan(|Concat(parts)|, h.segmentSize))
  {
    PlanPartitions(Concat(parts), h.segmentSize);
    SameLengthsSameParts(parts, Slices(Concat(parts), Plan(|Concat(parts)|, h.segmentSize)));
  }

  /** The draws that a container's envelopes record. */
  function RecordedDraws(envs: seq<Bytes>): nat -> Draw {
    (k: nat) => if k < |envs| && |envs[k]| >= HEADER_LEN then DrawOf(envs[k]) else Draw(Zeros(16), Zeros(12))
  }

  /** A container whose segments follow the plan is printed by the call that makes the draws it records. */
  lemma PlannedIsProduced(f: Lib, c: Bytes, b: Binding, h: StreamHeader, envs: seq<Bytes>, parts: seq<Bytes>)
    requires Framed(f, c, b, h, envs, parts) && |Concat(parts)| == h.totalLen && FollowsPlan(h, envs)
    ensures Sealable(Concat(parts), b, h.segmentSize)
    ensures c == Container(f, Concat(parts), b, h.segmentSize, h.id, RecordedDraws(envs))
  {
    var state, draws := Concat(parts), RecordedDraws(envs);
    forall k | 0 <= k < |envs|
      ensures |parts| == |envs| && |envs[k]| == ENVELOPE_OVERHEAD + |parts[k]|
    {
      FramedSegment(f, c, b, h, envs, parts, k);
    }
    FramedSegment(f, c, b, h, envs, parts, 0);
    PlannedSlices(h, envs, parts);
    assert HeaderFor(h.id, |state|, h.segmentSize) == h;
    var made := Envelopes(f, state, b, h.segmentSize, h.id, draws);
    forall k | 0 <= k < |envs|
      ensures made[k] == envs[k]
    {
      FramedSealed(f, c, b, h, envs, parts, k);
      assert SegmentOf(state, h.segmentSize, k) == parts[k];
    }
    assert made == envs;
  }

  /** Some call of `seal_state_chunked` prints an accepted container exactly when the lengths of its frames follow the
    * plan for its header, which can be checked before opening anything. */
  lemma ProducedIffPlanned(f: Lib, c: Bytes, b: Binding, h: StreamHeader, envs: seq<Bytes>, parts: seq<Bytes>)
    requires Framed(f, c, b, h, envs, parts) && |Concat(parts)| == h.totalLen
    ensures Produced(f, c, b) <==> FollowsPlan(h, envs)
  {
    if Produced(f, c, b) {
      var state, size, id, draws :|
        Sealable(state, b, size) && c == Container(f, state, b, size, id, draws);
      ProducedFollowsPlan(f, c, b, h, envs, parts, state, size, id, draws);
    }
    if FollowsPlan(h, envs) {
      PlannedIsProduced(f, c, b, h, envs, parts);
    }
  }

  /** Each framed envelope is what sealing its part with the draw it records prints. */
  lemma FramedSealed(f: Lib, c: Bytes, b: Binding, h: StreamHeader, envs: seq<Bytes>, parts: seq<Bytes>, k: nat)
    requires Framed(f, c, b, h, envs, parts) && k < |envs|
    ensures |parts| == |envs| && |envs[k]| >= HEADER_LEN
    ensures SealState(f, parts[k], SegBinding(b, h, k), DrawOf(envs[k])) == Ok(envs[k])
  {
    FramedSegment(f, c, b, h, envs, parts, k);
    UnsealIffSealed(f, envs[k], SegBinding(b, h, k), parts[k]);
  }

  /** So a holder of the secret can have a container accepted that no call prints: three bytes cut two and one
    * under a segment size of one. */
  lemma UnevenContainerOpens(f: Lib, b: Binding, id: StreamId, draws: nat -> Draw)
    requires |b.context| + 74 <= MAX_LP_FIELD && Usable(b)
    ensures var h, parts := StreamHeader(id, 2, 1, 3), [Zeros(2), Zeros(1)];
            var c := HeaderBytes(h) + Frames(Assemble(f, b, h, parts, draws));
            OpenContainer(f, c, b).Ok? && !Produced(f, c, b)
  {
    var h, parts := StreamHeader(id, 2, 1, 3), [Zeros(2), Zeros(1)];
    var envs := Assemble(f, b, h, parts, draws);
    assert Concat(parts) == Zeros(2) + Concat([Zeros(1)]) && Concat([Zeros(1)]) == Zeros(1) + Concat([]);
    OnlyTheSumIsChecked(f, b, h, parts, draws);
    AssembledFramed(f, b, h, parts, draws);
    PlanPartitions(Zeros(3), 1);
    ProducedIffPlanned(f, HeaderBytes(h) + Frames(envs), b, h, envs, parts);
  }

  // Position binding

  /** The strings hashed into two segments' key derivations are equal only for one user context, stream, index, count,
    * total, size, epoch and fingerprint. */
  lemma PositionsHashApart(c1: Bytes, h1: StreamHeader, i1: u64, e1: u64, m1: Digest,
                           c2: Bytes, h2: StreamHeader, i2: u64, e2: u64, m2: Digest)
    requires |c1| + 74 <= MAX_LP_FIELD && |c2| + 74 <= MAX_LP_FIELD
    requires KdfCanonical(SegContext(c1, h1, i1), e1, m1) == KdfCanonical(SegContext(c2, h2, i2), e2, m2)
    ensures c1 == c2 && h1 == h2 && i1 == i2 && e1 == e2 && m1 == m2
  {
    KdfCanonicalInjective(SegContext(c1, h1, i1), e1, m1, SegContext(c2, h2, i2), e2, m2);
    SegContextInjective(c1, h1, i1, c2, h2, i2);
  }

  // Errors

  /** Opening an envelope raises nothing outside the library's hierarchy, and under a usable binding only the two
    * documented classes: malformed exactly when the bytes alone are, else the uniform mismatch. */
  lemma UnsealErrors(f: Lib, e: Bytes, b: Binding)
    ensures UnsealState(f, e, b) != Err(NativeError)
    ensures Usable(b) ==>
              && (UnsealState(f, e, b) == Err(MalformedEnvelope) <==> Parse(e).Err?)
              && UnsealState(f, e, b) != Err(SceError)
  {
    ParseIffFramed(e);
  }

  /** A header is admitted exactly when its bytes are there, it counts at least one segment, one only for an empty
    * state, and at most one for every nine bytes behind it. */
  lemma HeaderAdmittedIff(c: Bytes, h: StreamHeader)
    ensures AdmitHeader(c) == Ok(h) <==>
            && |c| >= 45 && c[..45] == HeaderBytes(h)
            && 1 <= h.count <= (|c| - 45) / 9 && (h.totalLen == 0 ==> h.count == 1)
    ensures AdmitHeader(c).Err? ==> AdmitHeader(c).error == MalformedEnvelope
  {
    ParseHeaderIffPrinted(c, h);
  }

  /** With these frames of `c` opened, opening it ends with error `e`: when a segment is missing, malformed if no whole
    * frame stands where they end, else the error of opening just the string framed there; when none is, malformed if
    * bytes remain, else the mismatch if the lengths do not add up. */
  predicate EndsWith(f: Lib, c: Bytes, b: Binding, h: StreamHeader, envs: seq<Bytes>, parts: seq<Bytes>, e: Error) {
    var at := STREAM_HEADER_LEN + |Frames(envs)|;
    if |envs| < h.count then StopsWith(SegmentOpener(f, b, h), c, |envs|, at, e)
    else if at != |c| then e == MalformedEnvelope
    else |Concat(parts)| != h.totalLen && e == StateSealMismatch
  }

  /** The loop goes on behind the frames that open. */
  lemma PrefixRuns(f: Lib, c: Bytes, b: Binding, h: StreamHeader, envs: seq<Bytes>, parts: seq<Bytes>)
    requires OpensPrefix(f, c, b, h, envs, parts)
    ensures STREAM_HEADER_LEN + |Frames(envs)| <= |c|
    ensures OpenFrames(SegmentOpener(f, b, h), c, h.count, 0, STREAM_HEADER_LEN) ==
            Prepend(parts, OpenFrames(SegmentOpener(f, b, h), c, h.count, |envs|, STREAM_HEADER_LEN + |Frames(envs)|))
  {
    var end := STREAM_HEADER_LEN + |Frames(envs)|;
    Last(HeaderBytes(h), Frames(envs), c);
    FramesOpenThen(SegmentOpener(f, b, h), c, h.count, 0, |envs|, STREAM_HEADER_LEN, end, envs, parts);
  }

  lemma EndsThere(f: Lib, c: Bytes, b: Binding, h: StreamHeader, envs: seq<Bytes>, parts: seq<Bytes>, e: Error)
    requires OpensPrefix(f, c, b, h, envs, parts) && EndsWith(f, c, b, h, envs, parts, e)
    ensures OpenContainer(f, c, b) == Err(e)
  {
    var open, at := SegmentOpener(f, b, h), STREAM_HEADER_LEN + |Frames(envs)|;
    PrefixRuns(f, c, b, h, envs, parts);
    if |envs| < h.count {
      ReadStopsIff(open, c, |envs|, at, e);
      RoundStops(open, c, h.count, |envs|, at, parts);
    } else {
      RoundsEnd(open, c, h.count, at, parts);
    }
  }

  lemma FailsSomewhere(f: Lib, c: Bytes, b: Binding, h: StreamHeader) returns (envs: seq<Bytes>, parts: seq<Bytes>)
    requires AdmitHeader(c) == Ok(h)
    requires OpenFrames(SegmentOpener(f, b, h), c, h.count, 0, STREAM_HEADER_LEN).Failed?
    ensures OpensPrefix(f, c, b, h, envs, parts)
    ensures EndsWith(f, c, b, h, envs, parts, OpenContainer(f, c, b).error)
  {
    var open := SegmentOpener(f, b, h);
    var at;
    envs, parts, at := FailedFrames(open, c, h.count, 0, STREAM_HEADER_LEN);
    HeaderThenFrames(c, h, envs, at);
    ReadStopsIff(open, c, |envs|, at, OpenContainer(f, c, b).error);
  }

  lemma SomewhereEnds(f: Lib, c: Bytes, b: Binding, h: StreamHeader) returns (envs: seq<Bytes>, parts: seq<Bytes>)
    requires AdmitHeader(c) == Ok(h) && OpenContainer(f, c, b).Err?
    ensures OpensPrefix(f, c, b, h, envs, parts) && EndsWith(f, c, b, h, envs, parts, OpenContainer(f, c, b).error)
  {
    if OpenFrames(SegmentOpener(f, b, h), c, h.count, 0, STREAM_HEADER_LEN).Failed? {
      envs, parts := FailsSomewhere(f, c, b, h);
    } else {
      envs, parts := WorkIsBounded(f, c, b, h);
      OpenedLength(f, b, h, envs, parts);
    }
  }

  lemma HeaderThenFrames(c: Bytes, h: StreamHeader, envs: seq<Bytes>, at: nat)
    requires AdmitHeader(c) == Ok(h) && STREAM_HEADER_LEN <= at <= |c| && c[STREAM_HEADER_LEN..at] == Frames(envs)
    ensures HeaderBytes(h) + Frames(envs) <= c && at == STREAM_HEADER_LEN + |Frames(envs)|
  {
    ParseHeaderIffPrinted(c, h);
    Join(c, 0, STREAM_HEADER_LEN, at);
  }

  /** Which error opening any bytes under any binding raises: malformed when the header is not admitted, else what the
    * frames that open end with. */
  lemma OpenFailsIff(f: Lib, c: Bytes, b: Binding, e: Error)
    ensures OpenContainer(f, c, b) == Err(e) <==>
            || (AdmitHeader(c).Err? && e == MalformedEnvelope)
            || exists h, envs, parts :: OpensPrefix(f, c, b, h, envs, parts) && EndsWith(f, c, b, h, envs, parts, e)
  {
    if AdmitHeader(c).Ok? {
      if OpenContainer(f, c, b) == Err(e) {
        var envs, parts := SomewhereEnds(f, c, b, AdmitHeader(c).value);
      }
      forall h, envs, parts | OpensPrefix(f, c, b, h, envs, parts) && EndsWith(f, c, b, h, envs, parts, e)
        ensures OpenContainer(f, c, b) == Err(e)
      {
        EndsThere(f, c, b, h, envs, parts, e);
      }
    }
  }

  /** With these frames of `c` opened, opening it is refused without telling why: a whole frame follows that holds an
    * envelope and it does not open, or all frames open, end on the last byte and do not add up to the total. */
  predicate Mismatches(f: Lib, c: Bytes, b: Binding, h: StreamHeader, envs: seq<Bytes>, parts: seq<Bytes>) {
    var at := STREAM_HEADER_LEN + |Frames(envs)|;
    if |envs| < h.count then
      WholeFrame(c, at) &&
      var start := at + FRAME_LEN;
      var e := c[start..start + FromBigEndian(c[at..start])];
      Parse(e).Ok? && UnsealState(f, e, SegBinding(b, h, |envs|)).Err?
    else at == |c| && |Concat(parts)| != h.totalLen
  }

  lemma SegmentMismatchIff(f: Lib, b: Binding, h: StreamHeader, i: nat, e: Bytes)
    requires Usable(b) && |b.context| + 74 <= MAX_LP_FIELD
    ensures OpenSegment(f, b, h, i, e) == Err(StateSealMismatch) <==>
            Parse(e).Ok? && UnsealState(f, e, SegBinding(b, h, i)).Err?
  {
    UnsealErrors(f, e, SegBinding(b, h, i));
  }

  lemma MismatchIsEnd(f: Lib, c: Bytes, b: Binding, h: StreamHeader, envs: seq<Bytes>, parts: seq<Bytes>)
    requires Usable(b) && |b.context| + 74 <= MAX_LP_FIELD && |envs| <= h.count
    ensures Mismatches(f, c, b, h, envs, parts) <==> EndsWith(f, c, b, h, envs, parts, StateSealMismatch)
  {
    var at := STREAM_HEADER_LEN + |Frames(envs)|;
    if |envs| < h.count && WholeFrame(c, at) {
      var start := at + FRAME_LEN;
      SegmentMismatchIff(f, b, h, |envs|, c[start..start + FromBigEndian(c[at..start])]);
    }
  }

  /** Exactly when opening under a binding its segments can use raises the uniform mismatch; every other refusal is
    * malformed. */
  lemma MismatchIff(f: Lib, c: Bytes, b: Binding)
    requires Usable(b) && |b.context| + 74 <= MAX_LP_FIELD
    ensures OpenContainer(f, c, b) == Err(StateSealMismatch) <==>
            exists h, envs, parts :: OpensPrefix(f, c, b, h, envs, parts) && Mismatches(f, c, b, h, envs, parts)
    ensures OpenContainer(f, c, b).Err? && OpenContainer(f, c, b).error != StateSealMismatch ==>
              OpenContainer(f, c, b).error == MalformedEnvelope
  {
    OpenErrors(f, c, b);
    OpenFailsIff(f, c, b, StateSealMismatch);
    forall h, envs, parts | OpensPrefix(f, c, b, h, envs, parts)
      ensures Mismatches(f, c, b, h, envs, parts) <==> EndsWith(f, c, b, h, envs, parts, StateSealMismatch)
    {
      MismatchIsEnd(f, c, b, h, envs, parts);
    }
  }

  /** Bytes behind the last frame are malformed, whatever the frames hold. */
  lemma TrailingBytesAreMalformed(f: Lib, c: Bytes, b: Binding, h: StreamHeader, envs: seq<Bytes>, parts: seq<Bytes>,
                                  rest: Bytes)
    requires Framed(f, c, b, h, envs, parts) && rest != []
    ensures OpenContainer(f, c + rest, b) == Err(MalformedEnvelope)
  {
    FramedRuns(f, c, b, h, envs, parts);
    FramedLength(f, c, b, h, envs, parts);
    HeaderAdmittedIff(c, h);
    HeaderAdmittedIff(c + rest, h);
    assert (c + rest)[..45] == c[..45];
    assert c <= c + rest;
    EndsThere(f, c + rest, b, h, envs, parts, MalformedEnvelope);
  }

  /** The frames that still stand whole in the first `n` bytes, the next one cut. */
  lemma {:induction false} CutFrame(envs: seq<Bytes>, n: nat) returns (k: nat)
    requires n < |Frames(envs)|
    ensures k < |envs| && |Frames(envs[..k])| <= n < |Frames(envs[..k + 1])|
  {
    if n < |Frame(envs[0])| {
      k := 0;
      assert envs[..1] == [envs[0]] && envs[..1][1..] == [];
    } else {
      k := CutFrame(envs[1..], n - |Frame(envs[0])|);
      assert envs[..k + 1][1..] == envs[1..][..k] && envs[..k + 2][1..] == envs[1..][..k + 1];
      k := k + 1;
    }
  }

  /** So is a container cut short anywhere. */
  lemma TruncatedIsMalformed(f: Lib, c: Bytes, b: Binding, h: StreamHeader, envs: seq<Bytes>, parts: seq<Bytes>, n: nat)
    requires Framed(f, c, b, h, envs, parts) && n < |c|
    ensures OpenContainer(f, c[..n], b) == Err(MalformedEnvelope)
  {
    var cut := c[..n];
    if AdmitHeader(cut).Ok? {
      FramedLength(f, c, b, h, envs, parts);
      HeaderAdmittedIff(cut, AdmitHeader(cut).value);
      FramedRuns(f, c, b, h, envs, parts);
      HeaderAdmittedIff(c, h);
      assert cut[..45] == c[..45];
      SameHeader(AdmitHeader(cut).value, h);
      var k := CutFrame(envs, n - 45);
      CutOpens(f, c, b, h, envs, parts, n, k);
    }
  }

  lemma SameHeader(h1: StreamHeader, h2: StreamHeader)
    requires HeaderBytes(h1) == HeaderBytes(h2)
    ensures h1 == h2
  {
    ParseHeaderIffPrinted(HeaderBytes(h1), h1);
    ParseHeaderIffPrinted(HeaderBytes(h2), h2);
  }

  lemma CutOpens(f: Lib, c: Bytes, b: Binding, h: StreamHeader, envs: seq<Bytes>, parts: seq<Bytes>, n: nat, k: nat)
    requires Framed(f, c, b, h, envs, parts) && 45 <= n < |c| && AdmitHeader(c[..n]) == Ok(h) && Sized(envs)
    requires k < |envs| && 45 + |Frames(envs[..k])| <= n < 45 + |Frames(envs[..k + 1])|
    ensures OpenContainer(f, c[..n], b) == Err(MalformedEnvelope)
  {
    CutStops(HeaderBytes(h), envs, c, n, k);
    TakeOpens(SegmentOpener(f, b, h), envs, parts, k);
    NotWholeEnds(f, c[..n], b, h, envs[..k], parts[..k]);
  }

  lemma NotWholeEnds(f: Lib, c: Bytes, b: Binding, h: StreamHeader, envs: seq<Bytes>, parts: seq<Bytes>)
    requires OpensPrefix(f, c, b, h, envs, parts) && |envs| < h.count
    requires !WholeFrame(c, STREAM_HEADER_LEN + |Frames(envs)|)
    ensures OpenContainer(f, c, b) == Err(MalformedEnvelope)
  {
    EndsThere(f, c, b, h, envs, parts, MalformedEnvelope);
  }

  lemma CutStops(head: Bytes, envs: seq<Bytes>, c: Bytes, n: nat, k: nat)
    requires c == head + Frames(envs) && n < |c| && Sized(envs) && k < |envs|
    requires |head| + |Frames(envs[..k])| <= n < |head| + |Frames(envs[..k + 1])|
    ensures head + Frames(envs[..k]) <= c[..n] && !WholeFrame(c[..n], |head| + |Frames(envs[..k])|)
  {
    var at := |head| + |Frames(envs[..k])|;
    FramesOfPrefix(head, envs, k);
    FramesSnoc(envs[..k], envs[k]);
    assert envs[..k + 1] == envs[..k] + [envs[k]];
    FrameStands(head, envs, k);
    CutFrameIsNotWhole(c, envs[k], at, n);
  }

  lemma CutFrameIsNotWhole(c: Bytes, e: Bytes, at: nat, n: nat)
    requires |e| < U64_LIMIT && at <= n < at + 8 + |e| <= |c| && c[at..at + 8] == BigEndian(|e|, 8)
    ensures !WholeFrame(c[..n], at)
  {
    if at + FRAME_LEN <= n {
      assert c[..n][at..at + FRAME_LEN] == c[at..at + FRAME_LEN];
      U64RoundTrip(|e|);
    }
  }

  lemma TakeOpens(open: Opener, envs: seq<Bytes>, parts: seq<Bytes>, k: nat)
    requires OpensAs(open, 0, envs, parts) && k <= |envs|
    ensures |parts| == |envs| && OpensAs(open, 0, envs[..k], parts[..k])
  {
    forall i | 0 <= i < |envs|
      ensures |parts| == |envs| && open(i, envs[i]) == Ok(parts[i])
    {
      OpensAsAt(open, 0, envs, parts, i);
    }
    OpensAsFromStart(open, envs[..k], parts[..k]);
  }

  lemma SegmentErrors(f: Lib, b: Binding, h: StreamHeader, i: nat, e: Bytes)
    requires |b.context| < U32_LIMIT
    ensures OpenSegment(f, b, h, i, e) != Err(NativeError)
    ensures Usable(b) && |b.context| + 74 <= MAX_LP_FIELD ==> OpenSegment(f, b, h, i, e) != Err(SceError)
  {
    UnsealErrors(f, e, SegBinding(b, h, i));
  }

  /** What opening a container raises while its context fits the prefix: malformed, or what opening an envelope does. */
  lemma OpenCause(f: Lib, c: Bytes, b: Binding)
    requires |b.context| < U32_LIMIT && OpenContainer(f, c, b).Err?
    ensures OpenContainer(f, c, b).error != NativeError
    ensures Usable(b) && |b.context| + 74 <= MAX_LP_FIELD ==> OpenContainer(f, c, b).error != SceError
  {
    if AdmitHeader(c).Ok? {
      var h := AdmitHeader(c).value;
      var open := SegmentOpener(f, b, h);
      var run := OpenFrames(open, c, h.count, 0, STREAM_HEADER_LEN);
      if run.Failed? {
        var _, _, at := FailureHasCause(open, c, h.count, 0, STREAM_HEADER_LEN);
        if WholeFrame(c, at) {
          SegmentErrors(f, b, h, run.index, c[at + FRAME_LEN..run.seen]);
        }
      }
    }
  }

  /** Opening a container under a binding its segments can use raises only the two documented classes. */
  lemma OpenErrors(f: Lib, c: Bytes, b: Binding)
    requires Usable(b) && |b.context| + 74 <= MAX_LP_FIELD
    ensures OpenContainer(f, c, b).Err? ==>
              OpenContainer(f, c, b).error == MalformedEnvelope || OpenContainer(f, c, b).error == StateSealMismatch
  {
    if OpenContainer(f, c, b).Err? {
      OpenCause(f, c, b);
    }
  }

  lemma LongContextStops(f: Lib, c: Bytes, b: Binding)
    requires |b.context| >= U32_LIMIT && AdmitHeader(c).Ok?
    ensures OpenContainer(f, c, b) == Err(if WholeFrame(c, STREAM_HEADER_LEN) then NativeError else MalformedEnvelope)
  {
    var h := AdmitHeader(c).value;
    var step := ReadFrame(SegmentOpener(f, b, h), c, 0, STREAM_HEADER_LEN);
    assert step.Stop? && (step.error == NativeError <==> WholeFrame(c, STREAM_HEADER_LEN));
    assert OpenFrames(SegmentOpener(f, b, h), c, h.count, 0, STREAM_HEADER_LEN) == Failed(step.error, 0, step.seen);
  }

  /** An exception outside the library's hierarchy escapes opening exactly when the user context does not fit its
    * four-byte length prefix, the header is admitted and the first frame is complete. */
  lemma OpenEscapesIff(f: Lib, c: Bytes, b: Binding)
    ensures OpenContainer(f, c, b) == Err(NativeError) <==>
            |b.context| >= U32_LIMIT && AdmitHeader(c).Ok? && WholeFrame(c, STREAM_HEADER_LEN)
  {
    if |b.context| < U32_LIMIT {
      if OpenContainer(f, c, b).Err? {
        OpenCause(f, c, b);
      }
    } else if AdmitHeader(c).Ok? {
      LongContextStops(f, c, b);
    }
  }

  /** A context of 2^32 zero bytes makes sealing anything, and opening any sealed container, leak one. */
  lemma LongContextEscapes(f: Lib, state: Bytes, b: Binding, size: int, id: StreamId, draws: nat -> Draw)
    requires Sealable(state, b, size)
    ensures var long := b.(context := Zeros(U32_LIMIT));
            && SealOutcome(f, state, long, size, id, draws) == Err(NativeError)
            && OpenContainer(f, Container(f, state, b, size, id, draws), long) == Err(NativeError)
  {
    var c, h := Container(f, state, b, size, id, draws), HeaderFor(id, |state|, size);
    var envs := Envelopes(f, state, b, size, id, draws);
    ContainerFramed(f, state, b, size, id, draws);
    FramedRuns(f, c, b, h, envs, Slices(state, Plan(|state|, size)));
    OpenEscapesIff(f, c, b.(context := Zeros(U32_LIMIT)));
  }

  /** Two containers of one length that agree up to where the first one's failure was met fail alike. */
  lemma FirstFailureDecides(f: Lib, c1: Bytes, c2: Bytes, b: Binding)
    requires AdmitHeader(c1).Ok? && |c1| == |c2|
    requires var h := AdmitHeader(c1).value;
             var run := OpenFrames(SegmentOpener(f, b, h), c1, h.count, 0, STREAM_HEADER_LEN);
             run.Failed? && c1[..run.seen] == c2[..run.seen]
    ensures OpenContainer(f, c1, b).Err? && OpenContainer(f, c2, b) == OpenContainer(f, c1, b)
  {
    var h := AdmitHeader(c1).value;
    var open := SegmentOpener(f, b, h);
    var seen := OpenFrames(open, c1, h.count, 0, STREAM_HEADER_LEN).seen;
    ParseHeaderIffPrinted(c1, h);
    ParseHeaderIffPrinted(c2, h);
    assert c2[..STREAM_HEADER_LEN] == c2[..seen][..STREAM_HEADER_LEN] == c1[..STREAM_HEADER_LEN];
    FailureIsLocal(open, c1, c2, h.count, 0, STREAM_HEADER_LEN);
  }
}
