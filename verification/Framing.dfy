/** Length-framed strings and the loop that reads them, for any way of opening what is framed. */
module Framing {
  import opened Results
  import opened ByteStrings

  const FRAME_LEN := 8

  function Frame(e: Bytes): Bytes {
    BigEndian(|e|, 8) + e
  }

  function Frames(envs: seq<Bytes>): Bytes {
    if envs == [] then [] else Frame(envs[0]) + Frames(envs[1..])
  }

  lemma {:induction false} FramesSnoc(envs: seq<Bytes>, e: Bytes)
    ensures Frames(envs + [e]) == Frames(envs) + Frame(e)
  {
    if envs == [] {
      assert Frames([e]) == Frame(e) + Frames([]);
    } else {
      FramesSnoc(envs[1..], e);
      assert (envs + [e])[1..] == envs[1..] + [e];
    }
  }

  lemma FrameSplit(e1: Bytes, r1: Bytes, e2: Bytes, r2: Bytes)
    requires |e1| < U64_LIMIT && |e2| < U64_LIMIT
    requires Frame(e1) + r1 == Frame(e2) + r2
    ensures e1 == e2 && r1 == r2
  {
    var n1, n2 := BigEndian(|e1|, 8), BigEndian(|e2|, 8);
    assert n1 + (e1 + r1) == Frame(e1) + r1 == Frame(e2) + r2 == n2 + (e2 + r2);
    Split(n1, e1 + r1, n2, e2 + r2);
    U64Injective(|e1|, |e2|);
    Split(e1, r1, e2, r2);
  }

  /** Framing is self-delimiting: equally many frames with equal bytes are the same frames. */
  lemma FramesInjective(envs1: seq<Bytes>, envs2: seq<Bytes>)
    requires |envs1| == |envs2| && Frames(envs1) == Frames(envs2)
    requires forall i :: 0 <= i < |envs1| ==> |envs1[i]| < U64_LIMIT
    requires forall i :: 0 <= i < |envs2| ==> |envs2[i]| < U64_LIMIT
    ensures envs1 == envs2
  {
    FramesMatch(envs1, [], envs2, []);
  }

  lemma {:induction false} FramesAppend(a: seq<Bytes>, b: seq<Bytes>)
    ensures Frames(a + b) == Frames(a) + Frames(b)
  {
    if a == [] {
      assert a + b == b;
    } else {
      FramesAppend(a[1..], b);
      assert (a + b)[1..] == a[1..] + b;
      Associative(Frame(a[0]), Frames(a[1..]), Frames(b));
    }
  }

  lemma FramesOfPrefix(out: Bytes, envs: seq<Bytes>, k: nat)
    requires k <= |envs|
    ensures out + Frames(envs[..k]) <= out + Frames(envs)
  {
    assert envs == envs[..k] + envs[k..];
    FramesAppend(envs[..k], envs[k..]);
    Associative(out, Frames(envs[..k]), Frames(envs[k..]));
  }

  /** Frames that begin with other frames begin with those envelopes. */
  lemma FramesPrefix(a: seq<Bytes>, b: seq<Bytes>)
    requires |a| <= |b| && Frames(a) <= Frames(b) && Sized(a) && Sized(b)
    ensures a == b[..|a|]
  {
    var init, rest := b[..|a|], b[|a|..];
    assert b == init + rest;
    FramesAppend(init, rest);
    FramesMatch(a, Frames(b)[|Frames(a)|..], init, Frames(rest));
  }

  lemma {:induction false} FramesMatch(a: seq<Bytes>, r: Bytes, b: seq<Bytes>, t: Bytes)
    requires |a| == |b| && Frames(a) + r == Frames(b) + t && Sized(a) && Sized(b)
    ensures a == b
  {
    if a != [] {
      Associative(Frame(a[0]), Frames(a[1..]), r);
      Associative(Frame(b[0]), Frames(b[1..]), t);
      FrameSplit(a[0], Frames(a[1..]) + r, b[0], Frames(b[1..]) + t);
      FramesMatch(a[1..], r, b[1..], t);
      assert a == [a[0]] + a[1..] && b == [b[0]] + b[1..];
    }
  }

  /** The container's tail after `i` segments, and after one more. */
  lemma FramesTake(envs: seq<Bytes>, i: nat)
    requires i <= |envs|
    ensures i == 0 ==> Frames(envs[..i]) == []
    ensures i == |envs| ==> Frames(envs[..i]) == Frames(envs)
    ensures i < |envs| ==>
              forall out :: out + Frames(envs[..i]) + BigEndian(|envs[i]|, 8) + envs[i] == out + Frames(envs[..i + 1])
  {
    if i < |envs| {
      FramesSnoc(envs[..i], envs[i]);
      assert envs[..i + 1] == envs[..i] + [envs[i]];
      forall out: Bytes
        ensures out + Frames(envs[..i]) + BigEndian(|envs[i]|, 8) + envs[i] == out + Frames(envs[..i + 1])
      {
        assert out + Frames(envs[..i]) + BigEndian(|envs[i]|, 8) + envs[i] ==
               out + (Frames(envs[..i]) + Frame(envs[i]));
      }
    } else {
      assert envs[..i] == envs;
    }
  }

  // Reading

  /** How the string framed at a given index is opened. */
  type Opener = (nat, Bytes) -> Result<Bytes>

  /** What reading one frame comes to: its segment and the offset after it, or an error and the offset up
    * to which the container has been read. */
  datatype FrameStep = Next(segment: Bytes, end: nat) | Stop(error: Error, seen: nat)

  /** Reads the frame at `off` and opens it as segment `i`. */
  function ReadFrame(open: Opener, c: Bytes, i: nat, off: nat): (step: FrameStep)
    requires off <= |c|
    ensures step.Next? ==> off + FRAME_LEN <= step.end <= |c|
    ensures step.Stop? ==> off <= step.seen <= |c|
  {
    if off + FRAME_LEN > |c| then Stop(MalformedEnvelope, off)
    else
      var start := off + FRAME_LEN;
      var len := FromBigEndian(c[off..start]);
      if len > |c| - start then Stop(MalformedEnvelope, start)
      else
        match open(i, c[start..start + len])
        case Err(e) => Stop(e, start + len)
        case Ok(segment) => Next(segment, start + len)
  }

  /** What the framing loop comes to: all segments with the offset reached, or the first failure with
    * its segment's index and the offset up to which the container has been read. */
  datatype FrameRun = Opened(parts: seq<Bytes>, off: nat) | Failed(error: Error, index: nat, seen: nat)

  function Prepend(parts: seq<Bytes>, run: FrameRun): FrameRun {
    match run
    case Opened(rest, off) => Opened(parts + rest, off)
    case Failed(_, _, _) => run
  }

  /** Segments `i` to `n`, read from offset `off`. */
  function OpenFrames(open: Opener, c: Bytes, n: nat, i: nat, off: nat): (run: FrameRun)
    requires i <= n && off <= |c|
    ensures run.Opened? ==> off <= run.off <= |c| && |run.parts| == n - i
    ensures run.Failed? ==> off <= run.seen <= |c| && i <= run.index < n
    decreases n - i
  {
    if i == n then Opened([], off)
    else
      match ReadFrame(open, c, i, off)
      case Stop(e, seen) => Failed(e, i, seen)
      case Next(segment, end) => Prepend([segment], OpenFrames(open, c, n, i + 1, end))
  }

  // What the loop accepts

  /** The envelopes open, in order, to the parts, as segments `first` onwards. */
  predicate OpensAs(open: Opener, first: nat, envs: seq<Bytes>, parts: seq<Bytes>)
    decreases |envs|
  {
    |envs| == |parts| &&
    (envs == [] || (open(first, envs[0]) == Ok(parts[0]) && OpensAs(open, first + 1, envs[1..], parts[1..])))
  }

  lemma {:induction false} OpensAsAt(open: Opener, first: nat, envs: seq<Bytes>, parts: seq<Bytes>, k: nat)
    requires OpensAs(open, first, envs, parts) && k < |envs|
    ensures |envs| == |parts| && open(first + k, envs[k]) == Ok(parts[k])
    decreases k
  {
    if k > 0 {
      OpensAsAt(open, first + 1, envs[1..], parts[1..], k - 1);
    }
  }

  lemma {:induction false} OpensAsIntro(open: Opener, first: nat, envs: seq<Bytes>, parts: seq<Bytes>)
    requires |envs| == |parts|
    requires forall k :: 0 <= k < |envs| ==> open(first + k, envs[k]) == Ok(parts[k])
    ensures OpensAs(open, first, envs, parts)
    decreases |envs|
  {
    if envs != [] {
      assert open(first + 0, envs[0]) == Ok(parts[0]);
      forall k | 0 <= k < |envs[1..]|
        ensures open(first + 1 + k, envs[1..][k]) == Ok(parts[1..][k])
      {
        assert open(first + (k + 1), envs[k + 1]) == Ok(parts[k + 1]);
      }
      OpensAsIntro(open, first + 1, envs[1..], parts[1..]);
    }
  }

  lemma OpensAsFromStart(open: Opener, envs: seq<Bytes>, parts: seq<Bytes>)
    requires |envs| == |parts| && forall k :: 0 <= k < |envs| ==> open(k, envs[k]) == Ok(parts[k])
    ensures OpensAs(open, 0, envs, parts)
  {
    forall k | 0 <= k < |envs|
      ensures open(0 + k, envs[k]) == Ok(parts[k])
    {
      assert 0 + k == k;
    }
    OpensAsIntro(open, 0, envs, parts);
  }

  lemma OpensAsOne(open: Opener, e: Bytes, m: Bytes)
    requires open(0, e) == Ok(m)
    ensures OpensAs(open, 0, [e], [m])
  {
  }

  predicate Sized(envs: seq<Bytes>) {
    forall e :: e in envs ==> |e| < U64_LIMIT
  }

  lemma FrameReads(open: Opener, c: Bytes, i: nat, off: nat, end: nat, e: Bytes, rest: Bytes, m: Bytes)
    requires off <= end <= |c| && |e| < U64_LIMIT && c[off..end] == Frame(e) + rest && open(i, e) == Ok(m)
    ensures var next := off + FRAME_LEN + |e|;
            next <= end && ReadFrame(open, c, i, off) == Next(m, next) && c[next..end] == rest
  {
    FrameAt(c, off, end, e, rest);
  }

  lemma RunGoesOn(open: Opener, c: Bytes, n: nat, i: nat, off: nat, m: Bytes, next: nat, tail: seq<Bytes>,
                  run: FrameRun)
    requires i < n && off <= next <= |c| && ReadFrame(open, c, i, off) == Next(m, next)
    requires OpenFrames(open, c, n, i + 1, next) == Prepend(tail, run)
    ensures OpenFrames(open, c, n, i, off) == Prepend([m] + tail, run)
  {
    PrependTwice([m], tail, run);
  }

  /** Frames that open are read back one by one, wherever they stand in the container, and the loop goes on from
    * the offset they end on. */
  lemma {:induction false} FramesOpenThen(open: Opener, c: Bytes, n: nat, i: nat, j: nat, off: nat, end: nat,
                                          envs: seq<Bytes>, parts: seq<Bytes>)
    requires off <= end <= |c| && c[off..end] == Frames(envs) && i + |envs| == j <= n
    requires OpensAs(open, i, envs, parts) && Sized(envs)
    ensures OpenFrames(open, c, n, i, off) == Prepend(parts, OpenFrames(open, c, n, j, end))
    decreases |envs|
  {
    var run := OpenFrames(open, c, n, j, end);
    if envs == [] {
      PrependNothing(run);
    } else {
      var e, m, rest, tail := envs[0], parts[0], envs[1..], parts[1..];
      var next := off + FRAME_LEN + |e|;
      FrameReads(open, c, i, off, end, e, Frames(rest), m);
      FramesOpenThen(open, c, n, i + 1, j, next, end, rest, tail);
      RunGoesOn(open, c, n, i, off, m, next, tail, run);
      assert [m] + tail == parts;
    }
  }

  /** One round of the loop, with the parts so far. */
  lemma RoundGoesOn(open: Opener, c: Bytes, n: nat, i: nat, off: nat, parts: seq<Bytes>, m: Bytes, next: nat)
    requires i < n && off <= next <= |c| && ReadFrame(open, c, i, off) == Next(m, next)
    ensures Prepend(parts, OpenFrames(open, c, n, i, off)) == Prepend(parts + [m], OpenFrames(open, c, n, i + 1, next))
  {
    PrependTwice(parts, [m], OpenFrames(open, c, n, i + 1, next));
  }

  lemma RoundStops(open: Opener, c: Bytes, n: nat, i: nat, off: nat, parts: seq<Bytes>)
    requires i < n && off <= |c| && ReadFrame(open, c, i, off).Stop?
    ensures var step := ReadFrame(open, c, i, off);
            Prepend(parts, OpenFrames(open, c, n, i, off)) == Failed(step.error, i, step.seen)
  {
  }

  lemma RoundsEnd(open: Opener, c: Bytes, n: nat, off: nat, parts: seq<Bytes>)
    requires off <= |c|
    ensures Prepend(parts, OpenFrames(open, c, n, n, off)) == Opened(parts, off)
  {
    assert parts + [] == parts;
  }

  lemma PrependNothing(run: FrameRun)
    ensures Prepend([], run) == run
  {
    if run.Opened? {
      assert [] + run.parts == run.parts;
    }
  }

  lemma PrependTwice(a: seq<Bytes>, b: seq<Bytes>, run: FrameRun)
    ensures Prepend(a, Prepend(b, run)) == Prepend(a + b, run)
  {
    if run.Opened? {
      Associative(a, b, run.parts);
    }
  }

  /** So a whole run of them opens, and ends on their end. */
  lemma FramesOpen(open: Opener, c: Bytes, n: nat, i: nat, off: nat, end: nat, envs: seq<Bytes>, parts: seq<Bytes>)
    requires off <= end <= |c| && c[off..end] == Frames(envs) && i + |envs| == n
    requires OpensAs(open, i, envs, parts) && Sized(envs)
    ensures OpenFrames(open, c, n, i, off) == Opened(parts, end)
  {
    FramesOpenThen(open, c, n, i, n, off, end, envs, parts);
    assert parts + [] == parts;
  }

  /** A frame at `off` shows its length, its envelope and what follows. */
  lemma FrameAt(c: Bytes, off: nat, end: nat, e: Bytes, rest: Bytes)
    requires off <= end <= |c| && |e| < U64_LIMIT && c[off..end] == Frame(e) + rest
    ensures var start := off + FRAME_LEN;
            && start + |e| <= end && FromBigEndian(c[off..start]) == |e| && c[start..start + |e|] == e
            && c[start + |e|..end] == rest
  {
    var start := off + FRAME_LEN;
    var s := c[off..end];
    assert s == BigEndian(|e|, 8) + (e + rest);
    SliceSlice(c, off, end, 0, FRAME_LEN);
    SliceSlice(c, off, end, FRAME_LEN, FRAME_LEN + |e|);
    SliceSlice(c, off, end, FRAME_LEN + |e|, end - off);
    U64RoundTrip(|e|);
  }

  /** A frame that is read is an envelope with its length in front. */
  lemma ReadFrameFramed(open: Opener, c: Bytes, i: nat, off: nat) returns (e: Bytes)
    requires off <= |c| && ReadFrame(open, c, i, off).Next?
    ensures var step := ReadFrame(open, c, i, off);
            c[off..step.end] == Frame(e) && |e| < U64_LIMIT && open(i, e) == Ok(step.segment)
  {
    var start, end := off + FRAME_LEN, ReadFrame(open, c, i, off).end;
    e := c[start..end];
    ReadU64(c[off..start]);
    Join(c, off, start, end);
  }

  lemma OpensAsCons(open: Opener, i: nat, e: Bytes, m: Bytes, envs: seq<Bytes>, parts: seq<Bytes>)
    requires open(i, e) == Ok(m) && OpensAs(open, i + 1, envs, parts)
    ensures OpensAs(open, i, [e] + envs, [m] + parts)
  {
    assert ([e] + envs)[1..] == envs && ([m] + parts)[1..] == parts;
  }

  lemma FramesCons(e: Bytes, envs: seq<Bytes>)
    ensures Frames([e] + envs) == Frame(e) + Frames(envs)
    ensures Sized(envs) && |e| < U64_LIMIT ==> Sized([e] + envs)
  {
    assert ([e] + envs)[1..] == envs;
  }

  /** Whatever the loop opens was framed: the envelopes it sliced out, in order. */
  lemma {:induction false} OpenedFrames(open: Opener, c: Bytes, n: nat, i: nat, off: nat) returns (envs: seq<Bytes>)
    requires i <= n && off <= |c| && OpenFrames(open, c, n, i, off).Opened?
    ensures var run := OpenFrames(open, c, n, i, off);
            && i + |envs| == n && c[off..run.off] == Frames(envs) && OpensAs(open, i, envs, run.parts) && Sized(envs)
    decreases n - i
  {
    if i == n {
      envs := [];
    } else {
      var step, run := ReadFrame(open, c, i, off), OpenFrames(open, c, n, i, off);
      var e := ReadFrameFramed(open, c, i, off);
      var rest := OpenedFrames(open, c, n, i + 1, step.end);
      Join(c, off, step.end, run.off);
      FramesCons(e, rest);
      OpensAsCons(open, i, e, step.segment, rest, OpenFrames(open, c, n, i + 1, step.end).parts);
      envs := [e] + rest;
    }
  }

  /** Every frame that opens takes its eight-byte length and an envelope of at least `least` bytes, so on any bytes
    * the segments opened before the loop stops are bounded by what the container holds. */
  lemma {:induction false} FramesAdvance(open: Opener, least: nat, c: Bytes, n: nat, i: nat, off: nat)
    requires i <= n && off <= |c| && forall k, e :: open(k, e).Ok? ==> |e| >= least
    ensures match OpenFrames(open, c, n, i, off)
            case Opened(_, end) => off + (FRAME_LEN + least) * (n - i) <= end <= |c|
            case Failed(_, index, seen) => off + (FRAME_LEN + least) * (index - i) <= seen <= |c|
    decreases n - i
  {
    if i < n && ReadFrame(open, c, i, off).Next? {
      var next := OpenFrames(open, c, n, i + 1, ReadFrame(open, c, i, off).end);
      FramesAdvance(open, least, c, n, i + 1, ReadFrame(open, c, i, off).end);
      OneMore(FRAME_LEN + least, if next.Failed? then next.index - i else n - i);
    }
  }

  lemma OneMore(width: int, count: int)
    ensures width * count == width + width * (count - 1)
  {
  }

  // What the loop has read when it fails

  /** The frames before a failure were framed and opened, one behind the other, and the next read at the offset they
    * end on is the one that failed. */
  lemma {:induction false} FailedFrames(open: Opener, c: Bytes, n: nat, i: nat, off: nat)
    returns (envs: seq<Bytes>, parts: seq<Bytes>, at: nat)
    requires i <= n && off <= |c| && OpenFrames(open, c, n, i, off).Failed?
    ensures var run := OpenFrames(open, c, n, i, off);
            && i + |envs| == run.index && off <= at <= run.seen && c[off..at] == Frames(envs)
            && OpensAs(open, i, envs, parts) && Sized(envs)
            && ReadFrame(open, c, run.index, at) == Stop(run.error, run.seen)
    decreases n - i
  {
    if ReadFrame(open, c, i, off).Stop? {
      envs, parts, at := [], [], off;
    } else {
      var step := ReadFrame(open, c, i, off);
      var e := ReadFrameFramed(open, c, i, off);
      envs, parts, at := FailedFrames(open, c, n, i + 1, step.end);
      Join(c, off, step.end, at);
      FramesCons(e, envs);
      OpensAsCons(open, i, e, step.segment, envs, parts);
      envs, parts := [e] + envs, [step.segment] + parts;
    }
  }

  /** A length that the bytes behind it cover stands at `at`. */
  predicate WholeFrame(c: Bytes, at: nat) {
    at + FRAME_LEN <= |c| && FromBigEndian(c[at..at + FRAME_LEN]) <= |c| - at - FRAME_LEN
  }

  /** What stops one read: no whole frame at `at`, or the string framed there does not open. */
  predicate StopsWith(open: Opener, c: Bytes, i: nat, at: nat, e: Error) {
    if WholeFrame(c, at) then
      var start := at + FRAME_LEN;
      open(i, c[start..start + FromBigEndian(c[at..start])]) == Err(e)
    else e == MalformedEnvelope
  }

  lemma ReadStopsIff(open: Opener, c: Bytes, i: nat, at: nat, e: Error)
    requires at <= |c|
    ensures StopsWith(open, c, i, at, e) <==> ReadFrame(open, c, i, at).Stop? && ReadFrame(open, c, i, at).error == e
  {
  }

  /** A failure is malformed framing exactly when no whole frame stands where the opened ones end, or else the error
    * of opening just the string framed there, as the segment the failure is reported for. */
  lemma FailureHasCause(open: Opener, c: Bytes, n: nat, i: nat, off: nat)
    returns (envs: seq<Bytes>, parts: seq<Bytes>, at: nat)
    requires i <= n && off <= |c| && OpenFrames(open, c, n, i, off).Failed?
    ensures var run := OpenFrames(open, c, n, i, off);
            && i + |envs| == run.index && off <= at <= run.seen <= |c|
            && c[off..at] == Frames(envs) && OpensAs(open, i, envs, parts) && Sized(envs)
            && if WholeFrame(c, at) then
                 run.seen == at + FRAME_LEN + FromBigEndian(c[at..at + FRAME_LEN])
                 && open(run.index, c[at + FRAME_LEN..run.seen]) == Err(run.error)
               else run.error == MalformedEnvelope && run.seen <= at + FRAME_LEN
  {
    envs, parts, at := FailedFrames(open, c, n, i, off);
  }

  /** The offset up to which reading one frame looked. */
  function Reach(step: FrameStep): nat {
    match step
    case Next(_, end) => end
    case Stop(_, seen) => seen
  }

  lemma SamePrefix(c1: Bytes, c2: Bytes, n: nat, a: nat, b: nat)
    requires a <= b <= n <= |c1| == |c2| && c1[..n] == c2[..n]
    ensures c1[a..b] == c2[a..b]
  {
    SliceSlice(c1, 0, n, a, b);
    SliceSlice(c2, 0, n, a, b);
  }

  lemma ReadFrameLocal(open: Opener, c1: Bytes, c2: Bytes, i: nat, off: nat)
    requires off <= |c1| == |c2|
    requires var reach := Reach(ReadFrame(open, c1, i, off)); c1[..reach] == c2[..reach]
    ensures ReadFrame(open, c2, i, off) == ReadFrame(open, c1, i, off)
  {
    var reach, start := Reach(ReadFrame(open, c1, i, off)), off + FRAME_LEN;
    if start <= reach {
      SamePrefix(c1, c2, reach, off, start);
      SamePrefix(c1, c2, reach, start, reach);
    }
  }

  /** A failure depends on nothing behind it: bytes from `seen` on can change without changing the error,
    * the segment it is reported for, or how far the container was read. */
  lemma {:induction false} FailureIsLocal(open: Opener, c1: Bytes, c2: Bytes, n: nat, i: nat, off: nat)
    requires i <= n && off <= |c1| == |c2| && OpenFrames(open, c1, n, i, off).Failed?
    requires var seen := OpenFrames(open, c1, n, i, off).seen; c1[..seen] == c2[..seen]
    ensures OpenFrames(open, c2, n, i, off) == OpenFrames(open, c1, n, i, off)
    decreases n - i
  {
    var step := ReadFrame(open, c1, i, off);
    SamePrefix(c1, c2, OpenFrames(open, c1, n, i, off).seen, 0, Reach(step));
    ReadFrameLocal(open, c1, c2, i, off);
    if step.Next? {
      FailureIsLocal(open, c1, c2, n, i + 1, step.end);
    }
  }
}
