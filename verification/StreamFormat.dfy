/** The chunked container's format: header, length-framed envelopes, per-segment contexts and the
  * segment plan. */
module StreamFormat {
  import opened Results
  import opened ByteStrings
  import opened Primitives
  import opened Envelope

  const STREAM_MAGIC: Bytes := Ascii("SCES")
  const STREAM_VERSION: byte := 1
  const STREAM_DOMAIN: Bytes := Ascii("LDDP-SCE|stream-v1")
  const STREAM_HEADER_LEN := 45

  type StreamId = b: Bytes | |b| == 16 witness Zeros(16)

  datatype StreamHeader = StreamHeader(id: StreamId, count: u64, segmentSize: u64, totalLen: u64)

  lemma StreamConstantsAreNormative()
    ensures STREAM_HEADER_LEN == 45
    ensures STREAM_MAGIC == [0x53, 0x43, 0x45, 0x53] && STREAM_VERSION == 0x01
    ensures STREAM_DOMAIN == [0x4c, 0x44, 0x44, 0x50, 0x2d, 0x53, 0x43, 0x45, 0x7c, 0x73, 0x74, 0x72, 0x65, 0x61,
                              0x6d, 0x2d, 0x76, 0x31]
  {
  }

  // Segment contexts

  /** The context that names segment `index` of one stream.  Its length prefix has four bytes and no guard. */
  function SegContext(userContext: Bytes, h: StreamHeader, index: nat): (c: Bytes)
    ensures |c| == |userContext| + 74
  {
    STREAM_DOMAIN + Lp(userContext) + Lp(h.id)
    + BigEndian(index, 8) + BigEndian(h.count, 8) + BigEndian(h.totalLen, 8) + BigEndian(h.segmentSize, 8)
  }

  lemma SegContextDomain(userContext: Bytes, h: StreamHeader, index: nat)
    ensures STREAM_DOMAIN <= SegContext(userContext, h, index)
  {
  }

  /** The documented order of the fields: domain, user context, stream id, index, count, total length, segment size. */
  lemma SegContextLayout(userContext: Bytes, h: StreamHeader, index: u64)
    requires |userContext| < U32_LIMIT
    ensures var c, n := SegContext(userContext, h, index), |userContext|;
            && c[..18] == STREAM_DOMAIN && FromBigEndian(c[18..22]) == n && c[22..22 + n] == userContext
            && FromBigEndian(c[22 + n..26 + n]) == 16 && c[26 + n..42 + n] == h.id
            && FromBigEndian(c[42 + n..50 + n]) == index && FromBigEndian(c[50 + n..58 + n]) == h.count
            && FromBigEndian(c[58 + n..66 + n]) == h.totalLen && FromBigEndian(c[66 + n..74 + n]) == h.segmentSize
            && |c| == 74 + n
  {
    var c, n := SegContext(userContext, h, index), |userContext|;
    var ids := STREAM_DOMAIN + Lp(userContext) + Lp(h.id);
    var i, count, total := BigEndian(index, 8), BigEndian(h.count, 8), BigEndian(h.totalLen, 8);
    Last(ids + i + count + total, BigEndian(h.segmentSize, 8), c);
    Last(ids + i + count, total, c);
    Last(ids + i, count, c);
    Last(ids, i, c);
    Last(STREAM_DOMAIN + Lp(userContext), Lp(h.id), c);
    Last(STREAM_DOMAIN, Lp(userContext), c);
    LpFields(userContext, c, 18);
    LpFields(h.id, c, 22 + n);
    U64RoundTrip(index);
    U64RoundTrip(h.count);
    U64RoundTrip(h.totalLen);
    U64RoundTrip(h.segmentSize);
  }

  /** The bytes of `x` name a place: a user context, a stream, and the segment's index, the segments' count, the total
    * length and the segment size, in the documented order and widths. */
  predicate NamesPlace(x: Bytes, context: Bytes, id: StreamId, index: int, count: int, total: int, size: int) {
    var n := |context|;
    && |x| == 74 + n
    && x[..18] == [0x4c, 0x44, 0x44, 0x50, 0x2d, 0x53, 0x43, 0x45, 0x7c, 0x73, 0x74, 0x72, 0x65, 0x61, 0x6d, 0x2d, 0x76,
                   0x31]
    && FromBigEndian(x[18..22]) == n && x[22..22 + n] == context
    && FromBigEndian(x[22 + n..26 + n]) == 16 && x[26 + n..42 + n] == id
    && FromBigEndian(x[42 + n..50 + n]) == index && FromBigEndian(x[50 + n..58 + n]) == count
    && FromBigEndian(x[58 + n..66 + n]) == total && FromBigEndian(x[66 + n..74 + n]) == size
  }

  lemma SegContextNames(context: Bytes, h: StreamHeader, index: u64)
    requires |context| < U32_LIMIT
    ensures NamesPlace(SegContext(context, h, index), context, h.id, index, h.count, h.totalLen, h.segmentSize)
  {
    SegContextLayout(context, h, index);
  }

  lemma SameWord(a: Bytes, b: Bytes)
    requires |a| == |b| && FromBigEndian(a) == FromBigEndian(b)
    ensures a == b
  {
    FromBigEndianRoundTrip(a);
    FromBigEndianRoundTrip(b);
  }

  /** Only one string names a place. */
  lemma PlaceHasOneName(x: Bytes, y: Bytes, context: Bytes, id: StreamId, index: int, count: int, total: int, size: int)
    requires NamesPlace(x, context, id, index, count, total, size)
    requires NamesPlace(y, context, id, index, count, total, size)
    ensures x == y
  {
    var n := |context|;
    SameWord(x[18..22], y[18..22]);
    SameWord(x[22 + n..26 + n], y[22 + n..26 + n]);
    SameWord(x[42 + n..50 + n], y[42 + n..50 + n]);
    SameWord(x[50 + n..58 + n], y[50 + n..58 + n]);
    SameWord(x[58 + n..66 + n], y[58 + n..66 + n]);
    SameWord(x[66 + n..74 + n], y[66 + n..74 + n]);
    SameTo(x, y, 18, 22);
    SameTo(x, y, 22, 22 + n);
    SameTo(x, y, 22 + n, 26 + n);
    SameTo(x, y, 26 + n, 42 + n);
    SameTo(x, y, 42 + n, 50 + n);
    SameTo(x, y, 50 + n, 58 + n);
    SameTo(x, y, 58 + n, 66 + n);
    SameTo(x, y, 66 + n, 74 + n);
  }

  lemma SameTo(x: Bytes, y: Bytes, a: nat, b: nat)
    requires a <= b <= |x| == |y| && x[..a] == y[..a] && x[a..b] == y[a..b]
    ensures x[..b] == y[..b]
    ensures b == |x| ==> x == y
  {
    Join(x, 0, a, b);
    Join(y, 0, a, b);
  }

  function Numbers(h: StreamHeader, index: nat): Bytes {
    BigEndian(index, 8) + (BigEndian(h.count, 8) + (BigEndian(h.totalLen, 8) + BigEndian(h.segmentSize, 8)))
  }

  lemma NumbersInjective(h1: StreamHeader, i1: u64, h2: StreamHeader, i2: u64)
    requires Numbers(h1, i1) == Numbers(h2, i2)
    ensures h1.count == h2.count && h1.totalLen == h2.totalLen && h1.segmentSize == h2.segmentSize && i1 == i2
  {
    var t1 := BigEndian(h1.totalLen, 8) + BigEndian(h1.segmentSize, 8);
    var t2 := BigEndian(h2.totalLen, 8) + BigEndian(h2.segmentSize, 8);
    Split(BigEndian(i1, 8), BigEndian(h1.count, 8) + t1, BigEndian(i2, 8), BigEndian(h2.count, 8) + t2);
    Split(BigEndian(h1.count, 8), t1, BigEndian(h2.count, 8), t2);
    Split(BigEndian(h1.totalLen, 8), BigEndian(h1.segmentSize, 8),
          BigEndian(h2.totalLen, 8), BigEndian(h2.segmentSize, 8));
    U64Injective(i1, i2);
    U64Injective(h1.count, h2.count);
    U64Injective(h1.totalLen, h2.totalLen);
    U64Injective(h1.segmentSize, h2.segmentSize);
  }

  lemma SegContextShape(userContext: Bytes, h: StreamHeader, index: nat)
    ensures SegContext(userContext, h, index) == STREAM_DOMAIN + (Lp(userContext) + (Lp(h.id) + Numbers(h, index)))
  {
  }

  /** Distinct positions have distinct contexts: user context, stream, index, count, total and size are all bound. */
  lemma SegContextInjective(c1: Bytes, h1: StreamHeader, i1: u64, c2: Bytes, h2: StreamHeader, i2: u64)
    requires |c1| < U32_LIMIT && |c2| < U32_LIMIT
    requires SegContext(c1, h1, i1) == SegContext(c2, h2, i2)
    ensures c1 == c2 && h1 == h2 && i1 == i2
  {
    var r1, r2 := Lp(h1.id) + Numbers(h1, i1), Lp(h2.id) + Numbers(h2, i2);
    SegContextShape(c1, h1, i1);
    SegContextShape(c2, h2, i2);
    Split(STREAM_DOMAIN, Lp(c1) + r1, STREAM_DOMAIN, Lp(c2) + r2);
    LpSplit(c1, r1, c2, r2);
    LpSplit(h1.id, Numbers(h1, i1), h2.id, Numbers(h2, i2));
    NumbersInjective(h1, i1, h2, i2);
  }

  /** The binding under which segment `index` is sealed and opened. */
  function SegBinding(b: Binding, h: StreamHeader, index: nat): Binding {
    b.(context := SegContext(b.context, h, index))
  }

  /** It is the caller's secret, fingerprint and epoch with the one context that names the segment's place. */
  lemma SegBindingIs(b: Binding, h: StreamHeader, index: u64, x: Bytes)
    requires |b.context| < 4294967296
    requires NamesPlace(x, b.context, h.id, index, h.count, h.totalLen, h.segmentSize)
    ensures SegBinding(b, h, index) == Binding(b.secret, b.memh, b.epoch, x)
  {
    SegContextNames(b.context, h, index);
    PlaceHasOneName(x, SegContext(b.context, h, index), b.context, h.id, index, h.count, h.totalLen, h.segmentSize);
  }

  // Header

  function HeaderBytes(h: StreamHeader): (b: Bytes)
    ensures |b| == STREAM_HEADER_LEN
  {
    STREAM_MAGIC + [STREAM_VERSION] + h.id + BigEndian(h.count, 8) + BigEndian(h.segmentSize, 8)
    + BigEndian(h.totalLen, 8)
  }

  function ParseStreamHeader(c: Bytes): Result<StreamHeader> {
    if |c| < STREAM_HEADER_LEN then Err(MalformedEnvelope)
    else if c[..4] != STREAM_MAGIC then Err(MalformedEnvelope)
    else if c[4] != STREAM_VERSION then Err(MalformedEnvelope)
    else
      ReadU64(c[21..29]);
      ReadU64(c[29..37]);
      ReadU64(c[37..45]);
      Ok(StreamHeader(c[5..21], FromBigEndian(c[21..29]), FromBigEndian(c[29..37]), FromBigEndian(c[37..45])))
  }

  /** The header's fields stand at the documented offsets. */
  lemma StreamHeaderLayout(h: StreamHeader, rest: Bytes)
    ensures var c := HeaderBytes(h) + rest;
            && c[..4] == STREAM_MAGIC && c[4] == STREAM_VERSION && c[5..21] == h.id
            && c[21..29] == BigEndian(h.count, 8) && c[29..37] == BigEndian(h.segmentSize, 8)
            && c[37..45] == BigEndian(h.totalLen, 8) && c[..STREAM_HEADER_LEN] == HeaderBytes(h)
            && c[STREAM_HEADER_LEN..] == rest
  {
  }

  /** A container's header parses to `h` exactly when its first 45 bytes are `h` printed. */
  lemma ParseHeaderIffPrinted(c: Bytes, h: StreamHeader)
    ensures ParseStreamHeader(c) == Ok(h) <==>
            |c| >= STREAM_HEADER_LEN && c[..STREAM_HEADER_LEN] == HeaderBytes(h)
    ensures ParseStreamHeader(c).Err? ==> ParseStreamHeader(c).error == MalformedEnvelope
  {
    if ParseStreamHeader(c) == Ok(h) {
      ReadU64(c[21..29]);
      ReadU64(c[29..37]);
      ReadU64(c[37..45]);
      JoinOne(c, 4);
      Join(c, 0, 5, 21);
      Join(c, 0, 21, 29);
      Join(c, 0, 29, 37);
      Join(c, 0, 37, 45);
    } else if |c| >= STREAM_HEADER_LEN && c[..STREAM_HEADER_LEN] == HeaderBytes(h) {
      assert c == HeaderBytes(h) + c[STREAM_HEADER_LEN..];
      StreamHeaderLayout(h, c[STREAM_HEADER_LEN..]);
      U64RoundTrip(h.count);
      U64RoundTrip(h.segmentSize);
      U64RoundTrip(h.totalLen);
    }
  }

  // The segment plan

  function Min(a: int, b: int): int {
    if a <= b then a else b
  }

  /** `[(o, min(o + size, total)) for o in range(start, total, size)]` */
  function PlanFrom(start: nat, total: nat, size: nat): (plan: seq<(nat, nat)>)
    requires size > 0
    ensures forall k :: 0 <= k < |plan| ==> start <= plan[k].0 < plan[k].1 <= total
    ensures |plan| <= (if start < total then total - start else 0)
    decreases total - start
  {
    if start >= total then [] else [(start, Min(start + size, total))] + PlanFrom(start + size, total, size)
  }

  function Plan(total: nat, size: nat): (plan: seq<(nat, nat)>)
    requires size > 0
    ensures forall k :: 0 <= k < |plan| ==> plan[k].0 <= plan[k].1 <= total
    ensures 1 <= |plan| && |plan| <= (if total == 0 then 1 else total)
  {
    if total == 0 then [(0, 0)] else PlanFrom(0, total, size)
  }

  /** The slices of `state` that a plan names. */
  function Slices(state: Bytes, plan: seq<(nat, nat)>): (parts: seq<Bytes>)
    requires forall k :: 0 <= k < |plan| ==> plan[k].0 <= plan[k].1 <= |state|
    ensures |parts| == |plan|
    ensures forall k :: 0 <= k < |plan| ==> parts[k] == state[plan[k].0..plan[k].1]
  {
    seq(|plan|, k requires 0 <= k < |plan| => state[plan[k].0..plan[k].1])
  }

  function SegmentCount(total: nat, size: nat): nat
    requires size > 0
  {
    if total == 0 then 1 else (total + size - 1) / size
  }

  lemma {:induction false} PlanFromJoins(state: Bytes, start: nat, size: nat)
    requires size > 0 && start <= |state|
    ensures Concat(Slices(state, PlanFrom(start, |state|, size))) == state[start..]
    decreases |state| - start
  {
    var plan := PlanFrom(start, |state|, size);
    if start < |state| {
      var end := Min(start + size, |state|);
      PlanFromJoins(state, end, size);
      assert Slices(state, plan)[1..] == Slices(state, PlanFrom(end, |state|, size));
      assert state[start..] == state[start..end] + state[end..];
    }
  }

  lemma {:induction false} PlanFromCount(start: nat, total: nat, size: nat)
    requires size > 0 && start <= total
    ensures |PlanFrom(start, total, size)| == (total - start + size - 1) / size
    decreases total - start
  {
    if start == total {
      QuotientIs(size - 1, size, 0);
    } else if start + size >= total {
      assert PlanFrom(start + size, total, size) == [];
      QuotientIs(total - start + size - 1, size, 1);
    } else {
      PlanFromCount(start + size, total, size);
      DivStep(total - start - 1, size);
    }
  }

  lemma {:induction false} PlanFromAt(start: nat, total: nat, size: nat, k: nat)
    requires size > 0 && k < |PlanFrom(start, total, size)|
    ensures PlanFrom(start, total, size)[k] == (start + k * size, Min(start + k * size + size, total))
    decreases k
  {
    if k > 0 {
      PlanFromAt(start + size, total, size, k - 1);
      assert (k - 1) * size == k * size - size;
    }
  }

  lemma MulMonotone(a: int, b: int, size: nat)
    ensures a >= b ==> a * size >= b * size
  {
    if a >= b {
      assert (a - b) * size >= 0;
      assert (a - b) * size == a * size - b * size;
    }
  }

  /** The quotient is the only `q` with `q * size <= x < (q + 1) * size`. */
  lemma QuotientIs(x: nat, size: nat, q: nat)
    requires size > 0 && q * size <= x < q * size + size
    ensures x / size == q
  {
    var d := x / size;
    assert d * size <= x < d * size + size;
    assert (d + 1) * size == d * size + size && (q + 1) * size == q * size + size;
    MulMonotone(d, q + 1, size);
    MulMonotone(q, d + 1, size);
  }

  lemma DivStep(x: nat, size: nat)
    requires size > 0
    ensures (x + size) / size == x / size + 1
  {
    var d := x / size;
    assert (d + 1) * size == d * size + size;
    QuotientIs(x + size, size, d + 1);
  }

  /** The plan cuts a state into consecutive slices `[k * size, min((k + 1) * size, total))` that join up
    * to it, one for an empty state and ceil(total / size) otherwise. */
  lemma PlanPartitions(state: Bytes, size: nat)
    requires size > 0
    ensures var plan := Plan(|state|, size);
            && |plan| == SegmentCount(|state|, size)
            && Concat(Slices(state, plan)) == state
            && forall k :: 0 <= k < |plan| ==> plan[k] == (k * size, Min(k * size + size, |state|))
  {
    if state == [] {
      assert Slices(state, Plan(0, size)) == [[]];
      assert Concat([[]]) == [] + Concat([]);
    } else {
      PlanFromJoins(state, 0, size);
      PlanFromCount(0, |state|, size);
      forall k | 0 <= k < |Plan(|state|, size)|
        ensures Plan(|state|, size)[k] == (k * size, Min(k * size + size, |state|))
      {
        PlanFromAt(0, |state|, size, k);
      }
      assert state[0..] == state;
    }
  }

  lemma CeilBounds(total: nat, size: nat)
    requires size > 0 && total > 0
    ensures (SegmentCount(total, size) - 1) * size < total <= SegmentCount(total, size) * size
  {
    var x := total + size - 1;
    var n := x / size;
    assert n * size <= x < n * size + size;
    assert (n - 1) * size == n * size - size;
  }

  /** Every segment but the last is full, and the last one is not empty unless the state is. */
  lemma SegmentsFull(state: Bytes, size: nat, k: nat)
    requires size > 0 && k < |Plan(|state|, size)|
    ensures var (lo, hi) := Plan(|state|, size)[k];
            && (k + 1 < |Plan(|state|, size)| ==> hi - lo == size && Plan(|state|, size)[k + 1].0 == hi)
            && (k + 1 == |Plan(|state|, size)| ==> hi == |state|)
            && hi - lo <= size && (hi == lo ==> state == [])
  {
    var plan := Plan(|state|, size);
    PlanPartitions(state, size);
    assert plan[k] == (k * size, Min(k * size + size, |state|));
    if k + 1 < |plan| {
      assert plan[k + 1] == ((k + 1) * size, Min((k + 1) * size + size, |state|));
      assert (k + 1) * size == k * size + size;
    } else if state != [] {
      CeilBounds(|state|, size);
      assert SegmentCount(|state|, size) * size == k * size + size;
    }
  }
}
