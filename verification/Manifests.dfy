/** The manifest's canonical encoding: NFC, UTF-8, length prefixes and sorted extras. */
module Manifests {
  import opened Results
  import opened ByteStrings
  import opened Primitives
  import Utf8

  const MANIFEST_TAG: Bytes := Ascii("SCEMAN1")

  type Entry = (string, string)

  datatype Core = Core(
    weightsHash: string, quantization: string, kernelBuildId: string, tensorParallel: string, numericsMode: string)

  /** A manifest's fields; `extra` lists the items of its mapping in some enumeration order. */
  datatype Manifest = Manifest(core: Core, extra: seq<Entry>)

  lemma ManifestTagIsNormative()
    ensures MANIFEST_TAG == [0x53, 0x43, 0x45, 0x4d, 0x41, 0x4e, 0x31]
  {
  }

  /** The UTF-8 bytes of a string's NFC form. */
  function Norm(f: Lib, s: string): Bytes {
    Utf8.Encode(f.nfc(s))
  }

  lemma NormInjective(f: Lib, s: string, t: string)
    ensures Norm(f, s) == Norm(f, t) <==> f.nfc(s) == f.nfc(t)
  {
    if Norm(f, s) == Norm(f, t) {
      Utf8.EncodeInjective(f.nfc(s), f.nfc(t));
    }
  }

  /** `_enc_str` of a string. */
  function EncStr(f: Lib, s: string): Result<Bytes> {
    if |Norm(f, s)| >= U32_LIMIT then Err(SceError) else Ok(Lp(Norm(f, s)))
  }

  function CoreList(c: Core): (s: seq<string>)
    ensures |s| == 5
  {
    [c.weightsHash, c.quantization, c.kernelBuildId, c.tensorParallel, c.numericsMode]
  }

  // Byte order

  /** Python's `<` on bytes. */
  predicate Less(a: Bytes, b: Bytes) {
    b != [] && (a == [] || a[0] < b[0] || (a[0] == b[0] && Less(a[1..], b[1..])))
  }

  /** `b` is behind `a` when `a` is a proper prefix of it, or has the smaller byte where they first differ. */
  lemma {:induction false} LessIff(a: Bytes, b: Bytes)
    ensures Less(a, b) <==>
            exists k :: 0 <= k <= |a| && k < |b| && a[..k] == b[..k] && (k == |a| || a[k] < b[k])
  {
    if b != [] && a != [] && a[0] == b[0] {
      LessIff(a[1..], b[1..]);
      if k :| 0 <= k <= |a[1..]| && k < |b[1..]| && a[1..][..k] == b[1..][..k]
              && (k == |a[1..]| || a[1..][k] < b[1..][k]) {
        assert a[..k + 1] == [a[0]] + a[1..][..k] && b[..k + 1] == [b[0]] + b[1..][..k];
      }
      if k :| 0 <= k <= |a| && k < |b| && a[..k] == b[..k] && (k == |a| || a[k] < b[k]) {
        assert k > 0 && a[1..][..k - 1] == a[..k][1..] && b[1..][..k - 1] == b[..k][1..];
      }
    } else if b != [] && (a == [] || a[0] < b[0]) {
      assert a[..0] == b[..0];
    } else if k :| 0 <= k <= |a| && k < |b| && a[..k] == b[..k] && (k == |a| || a[k] < b[k]) {
      assert k > 0 ==> a[..k][0] == b[..k][0];
    }
  }

  lemma {:induction false} LessTotal(a: Bytes, b: Bytes)
    ensures a == b || Less(a, b) || Less(b, a)
  {
    if a != [] && b != [] && a[0] == b[0] {
      LessTotal(a[1..], b[1..]);
      assert a == [a[0]] + a[1..] && b == [b[0]] + b[1..];
    }
  }

  lemma {:induction false} LessTransitive(a: Bytes, b: Bytes, c: Bytes)
    requires Less(a, b) && Less(b, c)
    ensures Less(a, c)
  {
    if a != [] && a[0] == b[0] == c[0] {
      LessTransitive(a[1..], b[1..], c[1..]);
    }
  }

  lemma {:induction false} LessIrreflexive(a: Bytes)
    ensures !Less(a, a)
  {
    if a != [] {
      LessIrreflexive(a[1..]);
    }
  }

  // Sorting

  /** Inserts before the first entry with a greater key: a stable insertion. */
  function InsertEntry(f: Lib, e: Entry, s: seq<Entry>): (r: seq<Entry>)
    ensures |r| == |s| + 1
    ensures forall x :: x in r <==> x == e || x in s
  {
    if s == [] then [e]
    else if Less(Norm(f, e.0), Norm(f, s[0].0)) then [e] + s
    else [s[0]] + InsertEntry(f, e, s[1..])
  }

  /** `sorted(items, key=...)`: stable, by the key's normalised bytes. */
  function SortEntries(f: Lib, s: seq<Entry>): (r: seq<Entry>)
    ensures |r| == |s|
    ensures forall x :: x in r <==> x in s
  {
    if s == [] then [] else InsertEntry(f, s[|s| - 1], SortEntries(f, s[..|s| - 1]))
  }

  /** No two keys are equal after normalisation. */
  predicate DistinctNfc(f: Lib, s: seq<Entry>) {
    forall i, j :: 0 <= i < j < |s| ==> f.nfc(s[i].0) != f.nfc(s[j].0)
  }

  /** Keys increase strictly in byte order. */
  predicate Ascending(s: seq<(Bytes, Bytes)>) {
    forall i, j :: 0 <= i < j < |s| ==> Less(s[i].0, s[j].0)
  }

  function NormEntries(f: Lib, s: seq<Entry>): (r: seq<(Bytes, Bytes)>)
    ensures |r| == |s|
    ensures forall i :: 0 <= i < |s| ==> r[i] == (Norm(f, s[i].0), Norm(f, s[i].1))
  {
    seq(|s|, i requires 0 <= i < |s| => (Norm(f, s[i].0), Norm(f, s[i].1)))
  }

  lemma {:induction false} InsertKeepsAscending(f: Lib, e: Entry, s: seq<Entry>)
    requires Ascending(NormEntries(f, s)) && forall x :: x in s ==> Norm(f, x.0) != Norm(f, e.0)
    ensures Ascending(NormEntries(f, InsertEntry(f, e, s)))
  {
    var r, k := InsertEntry(f, e, s), Norm(f, e.0);
    if s != [] {
      if Less(k, Norm(f, s[0].0)) {
        forall j | 0 <= j < |s|
          ensures Less(k, Norm(f, s[j].0))
        {
          if j > 0 {
            LessTransitive(k, NormEntries(f, s)[0].0, NormEntries(f, s)[j].0);
          }
        }
        assert forall j :: 0 < j < |r| ==> r[j] == s[j - 1];
      } else {
        AscendingTail(f, s);
        InsertKeepsAscending(f, e, s[1..]);
        LessTotal(k, Norm(f, s[0].0));
        forall x | x in InsertEntry(f, e, s[1..])
          ensures Less(Norm(f, s[0].0), Norm(f, x.0))
        {
          if x != e {
            var j :| 0 <= j < |s[1..]| && s[1..][j] == x;
            assert NormEntries(f, s)[j + 1] == (Norm(f, x.0), Norm(f, x.1));
          }
        }
        PrependAscending(f, s[0], InsertEntry(f, e, s[1..]));
      }
    }
  }

  lemma AscendingTail(f: Lib, s: seq<Entry>)
    requires s != [] && Ascending(NormEntries(f, s))
    ensures Ascending(NormEntries(f, s[1..]))
  {
    var a, b := NormEntries(f, s), NormEntries(f, s[1..]);
    assert forall i :: 0 <= i < |b| ==> b[i] == a[i + 1];
  }

  lemma PrependAscending(f: Lib, x: Entry, s: seq<Entry>)
    requires Ascending(NormEntries(f, s)) && forall y :: y in s ==> Less(Norm(f, x.0), Norm(f, y.0))
    ensures Ascending(NormEntries(f, [x] + s))
  {
    var a, b := NormEntries(f, s), NormEntries(f, [x] + s);
    assert forall i :: 0 < i < |b| ==> b[i] == a[i - 1] && s[i - 1] in s;
  }

  /** Sorting puts normalised keys in strictly ascending byte order, when none collide. */
  lemma {:induction false} SortAscends(f: Lib, s: seq<Entry>)
    requires DistinctNfc(f, s)
    ensures Ascending(NormEntries(f, SortEntries(f, s)))
  {
    if s != [] {
      var init, e := s[..|s| - 1], s[|s| - 1];
      SortAscends(f, init);
      forall x | x in SortEntries(f, init)
        ensures Norm(f, x.0) != Norm(f, e.0)
      {
        var i :| 0 <= i < |init| && init[i] == x;
        assert s[i] == x;
        NormInjective(f, x.0, e.0);
      }
      InsertKeepsAscending(f, e, SortEntries(f, init));
    }
  }

  /** An ascending sequence is determined by its elements: a set of pairs has one sorted form. */
  lemma {:induction false} AscendingUnique(s: seq<(Bytes, Bytes)>, t: seq<(Bytes, Bytes)>)
    requires Ascending(s) && Ascending(t) && forall x :: x in s <==> x in t
    ensures s == t
  {
    HasMember(s);
    HasMember(t);
    if s != [] {
      FirstIsLeast(s, t[0]);
      FirstIsLeast(t, s[0]);
      LessNotBoth(s[0].0, t[0].0);
      forall x
        ensures x in s[1..] <==> x in t[1..]
      {
        TailMembers(s, x);
        TailMembers(t, x);
      }
      assert Ascending(s[1..]) && Ascending(t[1..]);
      AscendingUnique(s[1..], t[1..]);
      assert s == [s[0]] + s[1..] && t == [t[0]] + t[1..];
    }
  }

  lemma HasMember<T>(s: seq<T>)
    ensures s != [] ==> s[0] in s
  {
  }

  lemma LessNotBoth(a: Bytes, b: Bytes)
    ensures !(Less(a, b) && Less(b, a))
  {
    if Less(a, b) && Less(b, a) {
      LessTransitive(a, b, a);
      LessIrreflexive(a);
    }
  }

  lemma FirstIsLeast(s: seq<(Bytes, Bytes)>, x: (Bytes, Bytes))
    requires Ascending(s) && x in s
    ensures x == s[0] || Less(s[0].0, x.0)
  {
    var i :| 0 <= i < |s| && s[i] == x;
  }

  lemma TailMembers(s: seq<(Bytes, Bytes)>, x: (Bytes, Bytes))
    requires Ascending(s) && s != []
    ensures x in s[1..] <==> x in s && x != s[0]
  {
    if x in s[1..] {
      var i :| 0 <= i < |s[1..]| && s[1..][i] == x;
      assert x == s[i + 1];
      assert Less(s[0].0, s[i + 1].0);
      LessIrreflexive(s[0].0);
    }
    if x in s && x != s[0] {
      var i :| 0 <= i < |s| && s[i] == x;
      assert x == s[1..][i - 1];
    }
  }
}
