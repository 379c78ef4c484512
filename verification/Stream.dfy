/** Sealing and opening chunked containers. */
module Stream {
  import opened Results
  import opened ByteStrings
  import opened Primitives
  import opened Envelope
  import opened StreamFormat
  import opened Framing

  // Sealing

  function HeaderFor(id: StreamId, total: nat, size: nat): (h: StreamHeader)
    requires total < U64_LIMIT && 0 < size <= MAX_STATE
    ensures h.id == id && h.count == |Plan(total, size)| && h.segmentSize == size && h.totalLen == total
  {
    StreamHeader(id, |Plan(total, size)|, size, total)
  }

  /** The calls `seal_state_chunked` does not refuse. */
  predicate Sealable(state: Bytes, b: Binding, size: int) {
    0 < size <= MAX_STATE && |state| < U64_LIMIT && Usable(b) && |b.context| + 74 <= MAX_LP_FIELD
  }

  function SegmentOf(state: Bytes, size: nat, i: nat): (segment: Bytes)
    requires size > 0 && i < |Plan(|state|, size)|
    ensures |segment| <= size
  {
    SegmentsFull(state, size, i);
    var (lo, hi) := Plan(|state|, size)[i];
    state[lo..hi]
  }

  /** The envelope of segment `i`: its slice of the state, sealed under its own context. */
  function EnvelopeAt(f: Lib, state: Bytes, b: Binding, size: int, id: StreamId, draws: nat -> Draw, i: nat)
    : (e: Bytes)
    requires Sealable(state, b, size) && i < |Plan(|state|, size)|
    ensures SealState(f, SegmentOf(state, size, i), SegBinding(b, HeaderFor(id, |state|, size), i), draws(i)) == Ok(e)
    ensures |e| == ENVELOPE_OVERHEAD + |SegmentOf(state, size, i)|
  {
    var sb := SegBinding(b, HeaderFor(id, |state|, size), i);
    SealSucceedsIff(f, SegmentOf(state, size, i), sb, draws(i));
    SealState(f, SegmentOf(state, size, i), sb, draws(i)).value
  }

  function Envelopes(f: Lib, state: Bytes, b: Binding, size: int, id: StreamId, draws: nat -> Draw)
    : (envs: seq<Bytes>)
    requires Sealable(state, b, size)
    ensures |envs| == |Plan(|state|, size)|
    ensures forall i :: 0 <= i < |envs| ==> envs[i] == EnvelopeAt(f, state, b, size, id, draws, i)
  {
    seq(|Plan(|state|, size)|, i requires 0 <= i < |Plan(|state|, size)| =>
      EnvelopeAt(f, state, b, size, id, draws, i))
  }

  /** The container a successful call returns. */
  function Container(f: Lib, state: Bytes, b: Binding, size: int, id: StreamId, draws: nat -> Draw): Bytes
    requires Sealable(state, b, size)
  {
    HeaderBytes(HeaderFor(id, |state|, size)) + Frames(Envelopes(f, state, b, size, id, draws))
  }

  /** The outcome of every call, with the errors in the order the code meets them. */
  function SealOutcome(f: Lib, state: Bytes, b: Binding, size: int, id: StreamId, draws: nat -> Draw): Result<Bytes> {
    if !(0 < size <= MAX_STATE) then Err(SceError)
    else if |state| >= U64_LIMIT || |b.context| >= U32_LIMIT then Err(NativeError)
    else if !Sealable(state, b, size) then Err(SceError)
    else Ok(Container(f, state, b, size, id, draws))
  }

  /** The call that seals segment `i`: its context is built first, by a length prefix without a guard. */
  function SealSegment(f: Lib, state: Bytes, b: Binding, h: StreamHeader, i: nat, lo: nat, hi: nat, d: Draw)
    : Result<Bytes>
    requires i < h.count && lo <= hi <= |state|
  {
    if |b.context| >= U32_LIMIT then Err(NativeError)
    else SealState(f, state[lo..hi], SegBinding(b, h, i), d)
  }

  /** Every segment of a call meets the same fate, and no segment is refused for its size. */
  lemma SealSegmentOutcome(f: Lib, state: Bytes, b: Binding, size: int, id: StreamId, draws: nat -> Draw, i: nat)
    requires 0 < size <= MAX_STATE && |state| < U64_LIMIT && i < |Plan(|state|, size)|
    ensures var (lo, hi) := Plan(|state|, size)[i];
            SealSegment(f, state, b, HeaderFor(id, |state|, size), i, lo, hi, draws(i)) ==
            if |b.context| >= U32_LIMIT then Err(NativeError)
            else if !Sealable(state, b, size) then Err(SceError)
            else Ok(EnvelopeAt(f, state, b, size, id, draws, i))
  {
    var sb := SegBinding(b, HeaderFor(id, |state|, size), i);
    SealSucceedsIff(f, SegmentOf(state, size, i), sb, draws(i));
  }

  /** `seal_state_chunked`, with the stream id and every segment's draw as inputs. */
  method SealStateChunked(f: Lib, state: Bytes, b: Binding, size: int, id: StreamId, draws: nat -> Draw)
    returns (r: Result<Bytes>)
    ensures r == SealOutcome(f, state, b, size, id, draws)
  {
    if size <= 0 {
      return Err(SceError);
    }
    if size > MAX_STATE {
      return Err(SceError);
    }
    var bounds := Plan(|state|, size);
    if |state| >= U64_LIMIT {
      return Err(NativeError);  // struct.error from packing the header
    }
    var h := StreamHeader(id, |bounds|, size, |state|);
    var out := HeaderBytes(h);
    for i := 0 to |bounds|
      invariant i > 0 ==> Sealable(state, b, size)
      invariant i == 0 ==> out == HeaderBytes(h)
      invariant Sealable(state, b, size) ==>
                  out == HeaderBytes(h) + Frames(Envelopes(f, state, b, size, id, draws)[..i])
    {
      var (lo, hi) := bounds[i];
      SealSegmentOutcome(f, state, b, size, id, draws, i);
      var env :- SealSegment(f, state, b, h, i, lo, hi, draws(i));
      FramesTake(Envelopes(f, state, b, size, id, draws), i);
      out := out + BigEndian(|env|, 8) + env;
    }
    FramesTake(Envelopes(f, state, b, size, id, draws), |bounds|);
    return Ok(out);
  }

  // Opening

  /** The checks between the header and the loop. */
  function AdmitHeader(c: Bytes): (r: Result<StreamHeader>)
    ensures r.Ok? ==> |c| >= STREAM_HEADER_LEN && r.value.count >= 1
    ensures r.Err? ==> r.error == MalformedEnvelope
  {
    var h :- ParseStreamHeader(c);
    if h.count == 0 then Err(MalformedEnvelope)
    else if h.totalLen == 0 && h.count != 1 then Err(MalformedEnvelope)
    else if h.count > (|c| - STREAM_HEADER_LEN) / (FRAME_LEN + 1) then Err(MalformedEnvelope)
    else Ok(h)
  }

  /** The checks after the loop. */
  function Settle(c: Bytes, h: StreamHeader, run: FrameRun): Result<Bytes> {
    match run
    case Failed(e, _, _) => Err(e)
    case Opened(parts, off) =>
      if off != |c| then Err(MalformedEnvelope)
      else if |Concat(parts)| != h.totalLen then Err(StateSealMismatch)
      else Ok(Concat(parts))
  }

  /** Opens segment `i` under its own context, which is built by a length prefix without a guard. */
  function OpenSegment(f: Lib, b: Binding, h: StreamHeader, i: nat, e: Bytes): Result<Bytes> {
    if |b.context| >= U32_LIMIT then Err(NativeError) else UnsealState(f, e, SegBinding(b, h, i))
  }

  function SegmentOpener(f: Lib, b: Binding, h: StreamHeader): Opener {
    (i: nat, e: Bytes) => OpenSegment(f, b, h, i, e)
  }

  function OpenContainer(f: Lib, c: Bytes, b: Binding): Result<Bytes> {
    var h :- AdmitHeader(c);
    Settle(c, h, OpenFrames(SegmentOpener(f, b, h), c, h.count, 0, STREAM_HEADER_LEN))
  }

  /** `unseal_state_chunked`. */
  method UnsealStateChunked(f: Lib, c: Bytes, b: Binding) returns (r: Result<Bytes>)
    ensures r == OpenContainer(f, c, b)
  {
    var h :- AdmitHeader(c);
    var off := STREAM_HEADER_LEN;
    var parts: seq<Bytes> := [];
    var assembled := 0;
    var open := SegmentOpener(f, b, h);
    ghost var whole := OpenFrames(open, c, h.count, 0, off);
    for i := 0 to h.count
      invariant STREAM_HEADER_LEN <= off <= |c|
      invariant assembled == |Concat(parts)|
      invariant whole == Prepend(parts, OpenFrames(open, c, h.count, i, off))
    {
      var step := ReadFrame(open, c, i, off);
      if step.Stop? {
        RoundStops(open, c, h.count, i, off, parts);
        return Err(step.error);
      }
      RoundGoesOn(open, c, h.count, i, off, parts, step.segment, step.end);
      off := step.end;
      ConcatSnoc(parts, step.segment);
      parts := parts + [step.segment];
      assembled := assembled + |step.segment|;
    }
    RoundsEnd(open, c, h.count, off, parts);
    if off != |c| {
      return Err(MalformedEnvelope);
    }
    if assembled != h.totalLen {
      return Err(StateSealMismatch);
    }
    return Ok(Concat(parts));
  }
}
