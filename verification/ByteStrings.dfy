/** Byte strings, fixed-width big-endian integers and the four-byte length prefix. */
module ByteStrings {
  type byte = x: int | 0 <= x < 0x100
  type Bytes = seq<byte>

  const U32_LIMIT := 0x1_0000_0000
  const U64_LIMIT := 0x1_0000_0000_0000_0000
  type u64 = x: int | 0 <= x < U64_LIMIT

  /** A bytes literal. */
  function Ascii(s: string): (b: Bytes)
    requires forall c :: c in s ==> c as int < 0x80
    ensures |b| == |s|
  {
    assert forall i :: 0 <= i < |s| ==> s[i] in s;
    seq(|s|, i requires 0 <= i < |s| => s[i] as int as byte)
  }

  /** The low `width` bytes of `n`, most significant first. */
  function BigEndian(n: nat, width: nat): (b: Bytes)
    ensures |b| == width
  {
    if width == 0 then [] else BigEndian(n / 0x100, width - 1) + [n % 0x100]
  }

  function FromBigEndian(b: Bytes): nat {
    if b == [] then 0 else FromBigEndian(b[..|b| - 1]) * 0x100 + b[|b| - 1]
  }

  function Pow256(k: nat): (r: nat)
    ensures r > 0
  {
    if k == 0 then 1 else 0x100 * Pow256(k - 1)
  }

  lemma {:induction false} BigEndianRoundTrip(n: nat, width: nat)
    requires n < Pow256(width)
    ensures FromBigEndian(BigEndian(n, width)) == n
  {
    if width > 0 {
      BigEndianRoundTrip(n / 0x100, width - 1);
      assert BigEndian(n, width)[..width - 1] == BigEndian(n / 0x100, width - 1);
    }
  }

  lemma {:induction false} FromBigEndianRoundTrip(b: Bytes)
    ensures FromBigEndian(b) < Pow256(|b|)
    ensures BigEndian(FromBigEndian(b), |b|) == b
  {
    if b != [] {
      FromBigEndianRoundTrip(b[..|b| - 1]);
      assert FromBigEndian(b) / 0x100 == FromBigEndian(b[..|b| - 1]);
      assert b == b[..|b| - 1] + [b[|b| - 1]];
    }
  }

  lemma WordLimits()
    ensures Pow256(4) == U32_LIMIT && Pow256(8) == U64_LIMIT
  {
    assert Pow256(2) == 0x1_0000;
    assert Pow256(4) == 0x1_0000 * Pow256(2);
    assert Pow256(6) == 0x1_0000 * Pow256(4);
    assert Pow256(8) == 0x1_0000 * Pow256(6);
  }

  /** Four bytes, most significant first. */
  lemma U32Digits(n: nat)
    ensures BigEndian(n, 4) == [n / 0x100_0000 % 0x100, n / 0x1_0000 % 0x100, n / 0x100 % 0x100, n % 0x100]
  {
    var a, b, c := n / 0x100, n / 0x1_0000, n / 0x100_0000;
    assert a / 0x100 == b && b / 0x100 == c;
    assert BigEndian(n, 4) == BigEndian(a, 3) + [n % 0x100];
    assert BigEndian(a, 3) == BigEndian(b, 2) + [a % 0x100];
    assert BigEndian(b, 2) == BigEndian(c, 1) + [b % 0x100];
    assert BigEndian(c, 1) == BigEndian(c / 0x100, 0) + [c % 0x100];
  }

  /** Eight bytes are the high four, then the low four. */
  lemma U64Digits(n: nat)
    ensures BigEndian(n, 8) == BigEndian(n / 0x1_0000_0000, 4) + BigEndian(n, 4)
  {
    var a, b, c, d := n / 0x100, n / 0x1_0000, n / 0x100_0000, n / 0x1_0000_0000;
    assert a / 0x100 == b && b / 0x100 == c && c / 0x100 == d;
    assert BigEndian(n, 8) == BigEndian(a, 7) + [n % 0x100];
    assert BigEndian(a, 7) == BigEndian(b, 6) + [a % 0x100];
    assert BigEndian(b, 6) == BigEndian(c, 5) + [b % 0x100];
    assert BigEndian(c, 5) == BigEndian(d, 4) + [c % 0x100];
    U32Digits(n);
  }

  lemma U32RoundTrip(n: nat)
    requires n < U32_LIMIT
    ensures FromBigEndian(BigEndian(n, 4)) == n
  {
    WordLimits();
    BigEndianRoundTrip(n, 4);
  }

  lemma U64RoundTrip(n: u64)
    ensures FromBigEndian(BigEndian(n, 8)) == n
  {
    WordLimits();
    BigEndianRoundTrip(n, 8);
  }

  /** Eight bytes always denote a u64, and print back to themselves. */
  lemma ReadU64(b: Bytes)
    requires |b| == 8
    ensures FromBigEndian(b) < U64_LIMIT
    ensures BigEndian(FromBigEndian(b), 8) == b
  {
    WordLimits();
    FromBigEndianRoundTrip(b);
  }

  lemma ReadU32(b: Bytes)
    requires |b| == 4
    ensures FromBigEndian(b) < U32_LIMIT
    ensures BigEndian(FromBigEndian(b), 4) == b
  {
    WordLimits();
    FromBigEndianRoundTrip(b);
  }

  /** Reading a four-byte field gives `n` exactly when the field prints `n`. */
  lemma U32Field(n: nat, b: Bytes)
    requires n < U32_LIMIT && |b| == 4
    ensures FromBigEndian(b) == n <==> b == BigEndian(n, 4)
  {
    ReadU32(b);
    U32RoundTrip(n);
  }

  lemma U64Injective(m: u64, n: u64)
    requires BigEndian(m, 8) == BigEndian(n, 8)
    ensures m == n
  {
    U64RoundTrip(m);
    U64RoundTrip(n);
  }

  /** Equal concatenations whose first parts have equal length agree part by part. */
  lemma Split<T>(a: seq<T>, b: seq<T>, c: seq<T>, d: seq<T>)
    requires a + b == c + d && |a| == |c|
    ensures a == c && b == d
  {
    assert a == (a + b)[..|a|] && b == (a + b)[|a|..];
    assert c == (c + d)[..|c|] && d == (c + d)[|c|..];
  }

  lemma SliceSlice<T>(s: seq<T>, lo: nat, hi: nat, a: nat, b: nat)
    requires lo <= hi <= |s| && a <= b <= hi - lo
    ensures s[lo..hi][a..b] == s[lo + a..lo + b]
  {
    forall k | 0 <= k < b - a
      ensures s[lo..hi][a..b][k] == s[lo + a..lo + b][k]
    {
      assert s[lo..hi][a..b][k] == s[lo..hi][a + k] == s[lo + (a + k)];
      assert s[lo + a..lo + b][k] == s[lo + a + k];
    }
  }

  lemma Associative<T>(a: seq<T>, b: seq<T>, c: seq<T>)
    ensures a + b + c == a + (b + c)
  {
  }

  lemma Join<T>(s: seq<T>, a: nat, b: nat, c: nat)
    requires a <= b <= c <= |s|
    ensures s[a..b] + s[b..c] == s[a..c]
  {
  }

  lemma JoinOne<T>(s: seq<T>, a: nat)
    requires a < |s|
    ensures s[..a] + [s[a]] == s[..a + 1]
  {
  }

  /** A concatenation comes apart where it was joined. */
  lemma Cut<T>(s: seq<T>, a: seq<T>, b: seq<T>)
    ensures s == a + b <==> |s| >= |a| && s[..|a|] == a && s[|a|..|s|] == b
  {
    if |s| >= |a| {
      assert s == s[..|a|] + s[|a|..|s|];
    }
  }

  /** The last part of a prefix stands where the parts before it end. */
  lemma Last<T>(p: seq<T>, x: seq<T>, s: seq<T>)
    requires p + x <= s
    ensures p <= s && s[|p|..|p| + |x|] == x
  {
    assert s[|p|..|p| + |x|] == (p + x)[|p|..];
  }

  /** `b` preceded by its length as four big-endian bytes. */
  function Lp(b: Bytes): Bytes {
    BigEndian(|b|, 4) + b
  }

  /** A prefixed field read back from where it stands: its length, then the field. */
  lemma LpFields(b: Bytes, s: Bytes, at: nat)
    requires |b| < U32_LIMIT && at + 4 + |b| <= |s| && s[at..at + 4 + |b|] == Lp(b)
    ensures FromBigEndian(s[at..at + 4]) == |b| && s[at + 4..at + 4 + |b|] == b
  {
    U32RoundTrip(|b|);
    SliceSlice(s, at, at + 4 + |b|, 0, 4);
    SliceSlice(s, at, at + 4 + |b|, 4, 4 + |b|);
    Last([], BigEndian(|b|, 4), Lp(b));
    Last(BigEndian(|b|, 4), b, Lp(b));
  }

  /** Length prefixes are self-delimiting: two prefixed fields that start the same string are equal. */
  lemma LpSplit(a: Bytes, r: Bytes, b: Bytes, s: Bytes)
    requires |a| < U32_LIMIT && |b| < U32_LIMIT
    requires Lp(a) + r == Lp(b) + s
    ensures a == b && r == s
  {
    assert BigEndian(|a|, 4) + (a + r) == Lp(a) + r == Lp(b) + s == BigEndian(|b|, 4) + (b + s);
    Split(BigEndian(|a|, 4), a + r, BigEndian(|b|, 4), b + s);
    U32RoundTrip(|a|);
    U32RoundTrip(|b|);
    Split(a, r, b, s);
  }

  /** `b"".join(parts)`. */
  function Concat(parts: seq<Bytes>): Bytes {
    if parts == [] then [] else parts[0] + Concat(parts[1..])
  }

  lemma {:induction false} ConcatAppend(a: seq<Bytes>, b: seq<Bytes>)
    ensures Concat(a + b) == Concat(a) + Concat(b)
  {
    if a == [] {
      assert a + b == b;
    } else {
      ConcatAppend(a[1..], b);
      assert (a + b)[1..] == a[1..] + b;
      assert Concat(a + b) == a[0] + Concat(a[1..] + b);
    }
  }

  lemma ConcatOne(x: Bytes)
    ensures Concat([x]) == x
  {
    assert Concat([x]) == x + Concat([]);
  }

  lemma ConcatSnoc(a: seq<Bytes>, x: Bytes)
    ensures Concat(a + [x]) == Concat(a) + x
  {
    ConcatAppend(a, [x]);
    ConcatOne(x);
  }
}
