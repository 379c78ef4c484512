/** UTF-8 (section 3 of RFC 3629) over Unicode scalar values. */
module Utf8 {
  import opened ByteStrings

  function EncodeScalar(c: char): (b: Bytes)
    ensures 1 <= |b| <= 4
  {
    var n := c as int;
    if n < 0x80 then [n]
    else if n < 0x800 then [0xC0 + n / 0x40, 0x80 + n % 0x40]
    else if n < 0x1_0000 then [0xE0 + n / 0x1000, 0x80 + n / 0x40 % 0x40, 0x80 + n % 0x40]
    else [0xF0 + n / 0x4_0000, 0x80 + n / 0x1000 % 0x40, 0x80 + n / 0x40 % 0x40, 0x80 + n % 0x40]
  }

  /** As many bytes as the scalar's range asks for, the first marked with their number, the others in 0x80..0xBF, six
    * bits each, high bits first. */
  lemma ScalarLayout(c: char)
    ensures var b, n := EncodeScalar(c), c as int;
            if n <= 0x7F then b == [n]
            else if n <= 0x7FF then
              && |b| == 2 && 0xC2 <= b[0] <= 0xDF && 0x80 <= b[1] <= 0xBF
              && n == (b[0] as int - 0xC0) * 0x40 + (b[1] as int - 0x80)
            else if n <= 0xFFFF then
              && |b| == 3 && 0xE0 <= b[0] <= 0xEF && 0x80 <= b[1] <= 0xBF && 0x80 <= b[2] <= 0xBF
              && n == (b[0] as int - 0xE0) * 0x1000 + (b[1] as int - 0x80) * 0x40 + (b[2] as int - 0x80)
            else
              && |b| == 4 && 0xF0 <= b[0] <= 0xF4 && 0x80 <= b[1] <= 0xBF && 0x80 <= b[2] <= 0xBF
              && 0x80 <= b[3] <= 0xBF
              && n == (b[0] as int - 0xF0) * 0x4_0000 + (b[1] as int - 0x80) * 0x1000 + (b[2] as int - 0x80) * 0x40
                   + (b[3] as int - 0x80)
  {
    var n := c as int;
    assert n / 0x1000 == n / 0x40 / 0x40;
    assert n / 0x4_0000 == n / 0x1000 / 0x40;
  }

  function Encode(s: string): Bytes {
    if s == "" then [] else EncodeScalar(s[0]) + Encode(s[1..])
  }

  /** The scalar value that `EncodeScalar` spread over these bytes. */
  function DecodeScalar(b: Bytes): int
    requires 1 <= |b| <= 4
  {
    if |b| == 1 then b[0]
    else if |b| == 2 then (b[0] as int - 0xC0) * 0x40 + (b[1] as int - 0x80)
    else if |b| == 3 then (b[0] as int - 0xE0) * 0x1000 + (b[1] as int - 0x80) * 0x40 + (b[2] as int - 0x80)
    else (b[0] as int - 0xF0) * 0x4_0000 + (b[1] as int - 0x80) * 0x1000 + (b[2] as int - 0x80) * 0x40
         + (b[3] as int - 0x80)
  }

  function Width(first: byte): nat {
    if first < 0x80 then 1 else if first < 0xE0 then 2 else if first < 0xF0 then 3 else 4
  }

  lemma ScalarRoundTrip(c: char)
    ensures DecodeScalar(EncodeScalar(c)) == c as int
    ensures |EncodeScalar(c)| == Width(EncodeScalar(c)[0])
  {
    var n := c as int;
    assert n / 0x1000 == n / 0x40 / 0x40;
    assert n / 0x4_0000 == n / 0x1000 / 0x40;
  }

  /** The first byte tells how long a scalar's encoding is, and the bytes tell the scalar. */
  lemma ScalarSplit(c: char, r: Bytes, d: char, s: Bytes)
    requires EncodeScalar(c) + r == EncodeScalar(d) + s
    ensures c == d && r == s
  {
    var x, y := EncodeScalar(c), EncodeScalar(d);
    ScalarRoundTrip(c);
    ScalarRoundTrip(d);
    assert x[0] == (x + r)[0] == (y + s)[0] == y[0];
    Split(x, r, y, s);
  }

  lemma {:induction false} EncodeAppend(s: string, t: string)
    ensures Encode(s + t) == Encode(s) + Encode(t)
  {
    if s == "" {
      assert s + t == t;
    } else {
      EncodeAppend(s[1..], t);
      assert (s + t)[1..] == s[1..] + t;
      Associative(EncodeScalar(s[0]), Encode(s[1..]), Encode(t));
    }
  }

  lemma {:induction false} EncodeInjective(s: string, t: string)
    requires Encode(s) == Encode(t)
    ensures s == t
  {
    if s != "" && t != "" {
      ScalarSplit(s[0], Encode(s[1..]), t[0], Encode(t[1..]));
      EncodeInjective(s[1..], t[1..]);
      assert s == [s[0]] + s[1..] && t == [t[0]] + t[1..];
    }
  }
}
