/** The canonical bytes of a manifest, and the decoder that shows they determine its normal form. */
module Canonical {
  import opened Results
  import opened ByteStrings
  import opened Primitives
  import opened Manifests
  import Utf8

  // What goes on the wire

  /** A manifest's normal form: its core fields and its sorted extras, all as normalised UTF-8. */
  datatype Wire = Wire(core: seq<Bytes>, entries: seq<(Bytes, Bytes)>)

  function NormList(f: Lib, s: seq<string>): (r: seq<Bytes>)
    ensures |r| == |s| && forall i :: 0 <= i < |s| ==> r[i] == Norm(f, s[i])
  {
    seq(|s|, i requires 0 <= i < |s| => Norm(f, s[i]))
  }

  function WireOf(f: Lib, m: Manifest): Wire {
    Wire(NormList(f, CoreList(m.core)), NormEntries(f, SortEntries(f, m.extra)))
  }

  function PrintFields(fields: seq<Bytes>): Bytes {
    if fields == [] then [] else Lp(fields[0]) + PrintFields(fields[1..])
  }

  function PrintEntry(e: (Bytes, Bytes)): Bytes {
    Lp(e.0) + Lp(e.1)
  }

  function PrintEntries(entries: seq<(Bytes, Bytes)>): Bytes {
    if entries == [] then [] else PrintEntry(entries[0]) + PrintEntries(entries[1..])
  }

  function PrintWire(w: Wire): Bytes {
    MANIFEST_TAG + PrintFields(w.core) + BigEndian(|w.entries|, 4) + PrintEntries(w.entries)
  }

  function CanonicalForm(f: Lib, m: Manifest): Bytes {
    PrintWire(WireOf(f, m))
  }

  predicate Fits(f: Lib, s: string) {
    |Norm(f, s)| < U32_LIMIT
  }

  predicate CoreFits(f: Lib, c: Core) {
    forall s :: s in CoreList(c) ==> Fits(f, s)
  }

  predicate ExtraFits(f: Lib, extra: seq<Entry>) {
    forall e :: e in extra ==> Fits(f, e.0) && Fits(f, e.1)
  }

  /** The outcome of `canonical_bytes`, with the errors in the order the code meets them. */
  function CanonicalOutcome(f: Lib, m: Manifest): Result<Bytes> {
    if !CoreFits(f, m.core) then Err(SceError)
    else if |m.extra| >= U32_LIMIT then Err(NativeError)
    else if !ExtraFits(f, m.extra) then Err(SceError)
    else Ok(CanonicalForm(f, m))
  }

  // The encoding, field by field

  /** A string as it stands on the wire: the length of its normalised UTF-8 bytes in four bytes, then those. */
  function Field(f: Lib, s: string): Bytes {
    BigEndian(|Utf8.Encode(f.nfc(s))|, 4) + Utf8.Encode(f.nfc(s))
  }

  /** Each entry's key, then its value. */
  function EntryFields(f: Lib, s: seq<Entry>): Bytes {
    if s == [] then [] else Field(f, s[0].0) + Field(f, s[0].1) + EntryFields(f, s[1..])
  }

  lemma FieldIsLp(f: Lib, s: string)
    ensures Lp(Norm(f, s)) == Field(f, s)
  {
  }

  lemma CorePrints(f: Lib, c: Core)
    ensures PrintFields(NormList(f, CoreList(c))) ==
            Field(f, c.weightsHash) + Field(f, c.quantization) + Field(f, c.kernelBuildId)
            + Field(f, c.tensorParallel) + Field(f, c.numericsMode)
  {
    var w := NormList(f, CoreList(c));
    assert w == [Norm(f, c.weightsHash), Norm(f, c.quantization), Norm(f, c.kernelBuildId), Norm(f, c.tensorParallel),
                 Norm(f, c.numericsMode)];
    assert w[..5] == w && w[..4] == w[..3] + [w[3]] && w[..3] == w[..2] + [w[2]] && w[..2] == w[..1] + [w[1]];
    assert w[..1] == [] + [w[0]] && w == w[..4] + [w[4]];
    PrintFieldsSnoc([], w[0]);
    PrintFieldsSnoc(w[..1], w[1]);
    PrintFieldsSnoc(w[..2], w[2]);
    PrintFieldsSnoc(w[..3], w[3]);
    PrintFieldsSnoc(w[..4], w[4]);
    assert PrintFields([]) + Lp(w[0]) == Lp(w[0]);
  }

  lemma {:induction false} EntriesPrint(f: Lib, s: seq<Entry>)
    ensures PrintEntries(NormEntries(f, s)) == EntryFields(f, s)
  {
    if s != [] {
      EntriesPrint(f, s[1..]);
      assert NormEntries(f, s)[1..] == NormEntries(f, s[1..]);
      FieldIsLp(f, s[0].0);
      FieldIsLp(f, s[0].1);
    }
  }

  /** The whole encoding, for any enumeration of the extras that is sorted by normalised key: the tag, the five core
    * fields in their fixed order, the number of extras, and each key with its value. */
  lemma CanonicalLayout(f: Lib, m: Manifest, sorted: seq<Entry>)
    requires DistinctNfc(f, m.extra) && |sorted| == |m.extra| && forall e :: e in sorted <==> e in m.extra
    requires Ascending(NormEntries(f, sorted))
    ensures CanonicalForm(f, m) ==
            [0x53, 0x43, 0x45, 0x4d, 0x41, 0x4e, 0x31]
            + (Field(f, m.core.weightsHash) + Field(f, m.core.quantization) + Field(f, m.core.kernelBuildId)
               + Field(f, m.core.tensorParallel) + Field(f, m.core.numericsMode))
            + BigEndian(|m.extra|, 4) + EntryFields(f, sorted)
  {
    CorePrints(f, m.core);
    EntriesPrint(f, sorted);
    SortAscends(f, m.extra);
    SameEntriesSameWire(f, sorted, SortEntries(f, m.extra));
    ManifestTagIsNormative();
  }

  lemma SameEntriesSameWire(f: Lib, a: seq<Entry>, b: seq<Entry>)
    requires Ascending(NormEntries(f, a)) && Ascending(NormEntries(f, b)) && forall e :: e in a <==> e in b
    ensures NormEntries(f, a) == NormEntries(f, b)
  {
    var x, y := NormEntries(f, a), NormEntries(f, b);
    forall w
      ensures w in x <==> w in y
    {
      if w in x {
        var i :| 0 <= i < |x| && x[i] == w;
        assert a[i] in b;
        var j :| 0 <= j < |b| && b[j] == a[i];
        assert y[j] == w;
      }
      if w in y {
        var i :| 0 <= i < |y| && y[i] == w;
        assert b[i] in a;
        var j :| 0 <= j < |a| && a[j] == b[i];
        assert x[j] == w;
      }
    }
    AscendingUnique(x, y);
  }

  lemma {:induction false} PrintFieldsSnoc(fields: seq<Bytes>, x: Bytes)
    ensures PrintFields(fields + [x]) == PrintFields(fields) + Lp(x)
  {
    if fields == [] {
      assert PrintFields([x]) == Lp(x) + PrintFields([]);
    } else {
      PrintFieldsSnoc(fields[1..], x);
      assert (fields + [x])[1..] == fields[1..] + [x];
      Associative(Lp(fields[0]), PrintFields(fields[1..]), Lp(x));
    }
  }

  lemma {:induction false} PrintEntriesSnoc(entries: seq<(Bytes, Bytes)>, x: (Bytes, Bytes))
    ensures PrintEntries(entries + [x]) == PrintEntries(entries) + PrintEntry(x)
  {
    if entries == [] {
      assert PrintEntries([x]) == PrintEntry(x) + PrintEntries([]);
    } else {
      PrintEntriesSnoc(entries[1..], x);
      assert (entries + [x])[1..] == entries[1..] + [x];
      Associative(PrintEntry(entries[0]), PrintEntries(entries[1..]), PrintEntry(x));
    }
  }

  /** Appending one field's encoding to the parts prints one field more. */
  lemma AppendField(parts: seq<Bytes>, fields: seq<Bytes>, i: nat)
    requires i < |fields| && Concat(parts) == MANIFEST_TAG + PrintFields(fields[..i])
    ensures Concat(parts + [Lp(fields[i])]) == MANIFEST_TAG + PrintFields(fields[..i + 1])
  {
    ConcatSnoc(parts, Lp(fields[i]));
    PrintFieldsSnoc(fields[..i], fields[i]);
    assert fields[..i + 1] == fields[..i] + [fields[i]];
    Associative(MANIFEST_TAG, PrintFields(fields[..i]), Lp(fields[i]));
  }

  lemma AppendEntry(parts: seq<Bytes>, head: Bytes, entries: seq<(Bytes, Bytes)>, i: nat)
    requires i < |entries| && Concat(parts) == head + PrintEntries(entries[..i])
    ensures Concat(parts + [Lp(entries[i].0), Lp(entries[i].1)]) == head + PrintEntries(entries[..i + 1])
  {
    var k, v := Lp(entries[i].0), Lp(entries[i].1);
    ConcatSnoc(parts, k);
    ConcatSnoc(parts + [k], v);
    assert parts + [k, v] == parts + [k] + [v];
    Associative(Concat(parts), k, v);
    Associative(head, PrintEntries(entries[..i]), PrintEntry(entries[i]));
    PrintEntriesSnoc(entries[..i], entries[i]);
    assert entries[..i + 1] == entries[..i] + [entries[i]];
  }

  /** The loop of `canonical_bytes` over the core fields, in their fixed order. */
  method EncodeCore(f: Lib, c: Core) returns (r: Result<seq<Bytes>>)
    ensures r.Err? ==> r.error == SceError && !CoreFits(f, c)
    ensures r.Ok? ==> CoreFits(f, c) && Concat(r.value) == MANIFEST_TAG + PrintFields(NormList(f, CoreList(c)))
  {
    var parts := [MANIFEST_TAG];
    var names := CoreList(c);
    ghost var fields := NormList(f, names);
    assert Concat(parts) == MANIFEST_TAG + Concat([]);
    for i := 0 to |names|
      invariant forall j :: 0 <= j < i ==> Fits(f, names[j])
      invariant Concat(parts) == MANIFEST_TAG + PrintFields(fields[..i])
    {
      assert names[i] in names;
      AppendField(parts, fields, i);
      var field :- EncStr(f, names[i]);
      parts := parts + [field];
    }
    assert fields[..|names|] == fields;
    return Ok(parts);
  }

  lemma ExtraFitsTake(f: Lib, items: seq<Entry>, i: nat)
    requires i < |items|
    ensures ExtraFits(f, items[..i + 1]) <==> ExtraFits(f, items[..i]) && Fits(f, items[i].0) && Fits(f, items[i].1)
    ensures ExtraFits(f, items) ==> Fits(f, items[i].0) && Fits(f, items[i].1)
  {
    assert items[..i + 1] == items[..i] + [items[i]];
    assert forall e :: e in items[..i + 1] <==> e in items[..i] || e == items[i];
    assert items[i] in items;
  }

  /** The loop of `canonical_bytes` over the sorted extras, appending to the parts so far. */
  method EncodeExtra(f: Lib, items: seq<Entry>, head: seq<Bytes>) returns (r: Result<seq<Bytes>>)
    ensures r.Err? ==> r.error == SceError && !ExtraFits(f, items)
    ensures r.Ok? ==> ExtraFits(f, items) && Concat(r.value) == Concat(head) + PrintEntries(NormEntries(f, items))
  {
    var parts := head;
    ghost var entries := NormEntries(f, items);
    for i := 0 to |items|
      invariant ExtraFits(f, items[..i])
      invariant Concat(parts) == Concat(head) + PrintEntries(entries[..i])
    {
      ExtraFitsTake(f, items, i);
      AppendEntry(parts, Concat(head), entries, i);
      var key :- EncStr(f, items[i].0);
      var value :- EncStr(f, items[i].1);
      parts := parts + [key, value];
    }
    assert entries[..|items|] == entries && items[..|items|] == items;
    return Ok(parts);
  }

  /** `canonical_bytes`. */
  method CanonicalBytes(f: Lib, m: Manifest) returns (r: Result<Bytes>)
    ensures r == CanonicalOutcome(f, m)
  {
    var parts :- EncodeCore(f, m.core);
    var items := SortEntries(f, m.extra);
    if |items| >= U32_LIMIT {
      return Err(NativeError);  // OverflowError from the four-byte count
    }
    ConcatSnoc(parts, BigEndian(|items|, 4));
    parts := parts + [BigEndian(|items|, 4)];
    parts :- EncodeExtra(f, items, parts);
    return Ok(Concat(parts));
  }

  // The decoder

  function ReadLp(b: Bytes): (r: Option<(Bytes, Bytes)>)
    ensures r.Some? ==> |r.value.1| < |b|
  {
    if |b| < 4 then None
    else
      var n := FromBigEndian(b[..4]);
      if n > |b| - 4 then None else Some((b[4..4 + n], b[4 + n..]))
  }

  function ReadFields(b: Bytes, n: nat): Option<(seq<Bytes>, Bytes)> {
    if n == 0 then Some(([], b))
    else
      match ReadLp(b)
      case None => None
      case Some((x, rest)) =>
        match ReadFields(rest, n - 1)
        case None => None
        case Some((xs, tail)) => Some(([x] + xs, tail))
  }

  function ReadEntries(b: Bytes, n: nat): Option<(seq<(Bytes, Bytes)>, Bytes)>
    decreases n
  {
    if n == 0 then Some(([], b))
    else
      match ReadFields(b, 2)
      case None => None
      case Some((kv, rest)) =>
        match ReadEntries(rest, n - 1)
        case None => None
        case Some((es, tail)) => if |kv| != 2 then None else Some(([(kv[0], kv[1])] + es, tail))
  }

  /** Reads a canonical manifest off the front of `b`: its normal form and what follows it. */
  function ReadWire(b: Bytes): Option<(Wire, Bytes)> {
    var tag := |MANIFEST_TAG|;
    if |b| < tag || b[..tag] != MANIFEST_TAG then None
    else
      match ReadFields(b[tag..], 5)
      case None => None
      case Some((core, rest)) =>
        if |rest| < 4 then None
        else
          match ReadEntries(rest[4..], FromBigEndian(rest[..4]))
          case None => None
          case Some((entries, tail)) => Some((Wire(core, entries), tail))
  }

  lemma ReadLpPrinted(x: Bytes, rest: Bytes)
    requires |x| < U32_LIMIT
    ensures ReadLp(Lp(x) + rest) == Some((x, rest))
  {
    var b := Lp(x) + rest;
    assert b == BigEndian(|x|, 4) + (x + rest);
    assert b[..4] == BigEndian(|x|, 4);
    U32RoundTrip(|x|);
    assert b[4..4 + |x|] == x && b[4 + |x|..] == rest;
  }

  lemma {:induction false} ReadFieldsPrinted(fields: seq<Bytes>, rest: Bytes)
    requires forall x :: x in fields ==> |x| < U32_LIMIT
    ensures ReadFields(PrintFields(fields) + rest, |fields|) == Some((fields, rest))
  {
    if fields == [] {
      assert PrintFields(fields) + rest == rest;
    } else {
      var x, tail := fields[0], PrintFields(fields[1..]) + rest;
      Associative(Lp(x), PrintFields(fields[1..]), rest);
      assert x in fields;
      ReadLpPrinted(x, tail);
      ReadFieldsPrinted(fields[1..], rest);
      ReadFieldsCons(x, fields[1..], tail, rest);
      assert [x] + fields[1..] == fields;
    }
  }

  lemma ReadFieldsCons(x: Bytes, xs: seq<Bytes>, tail: Bytes, rest: Bytes)
    requires ReadLp(Lp(x) + tail) == Some((x, tail)) && ReadFields(tail, |xs|) == Some((xs, rest))
    ensures ReadFields(Lp(x) + tail, |xs| + 1) == Some(([x] + xs, rest))
  {
  }

  lemma {:induction false} ReadEntriesPrinted(entries: seq<(Bytes, Bytes)>, rest: Bytes)
    requires forall e :: e in entries ==> |e.0| < U32_LIMIT && |e.1| < U32_LIMIT
    ensures ReadEntries(PrintEntries(entries) + rest, |entries|) == Some((entries, rest))
  {
    if entries == [] {
      assert PrintEntries(entries) + rest == rest;
    } else {
      var (k, v) := entries[0];
      var tail := PrintEntries(entries[1..]) + rest;
      assert entries[0] in entries;
      PrintEntryFields(k, v);
      Associative(PrintEntry(entries[0]), PrintEntries(entries[1..]), rest);
      ReadFieldsPrinted([k, v], tail);
      ReadEntriesPrinted(entries[1..], rest);
      assert [(k, v)] + entries[1..] == entries;
    }
  }

  lemma PrintEntryFields(k: Bytes, v: Bytes)
    ensures PrintFields([k, v]) == PrintEntry((k, v))
  {
    PrintFieldsSnoc([k], v);
    assert [k] + [v] == [k, v];
    assert PrintFields([k]) == Lp(k) + PrintFields([]);
  }

  /** The wires that manifests print. */
  predicate Printable(w: Wire) {
    && |w.core| == 5 && |w.entries| < U32_LIMIT
    && (forall x :: x in w.core ==> |x| < U32_LIMIT)
    && (forall e :: e in w.entries ==> |e.0| < U32_LIMIT && |e.1| < U32_LIMIT)
  }

  /** The decoder recovers a printed wire from any string it stands at the front of. */
  lemma ReadWirePrinted(w: Wire, rest: Bytes)
    requires Printable(w)
    ensures ReadWire(PrintWire(w) + rest) == Some((w, rest))
  {
    var tail := PrintEntries(w.entries) + rest;
    var after := BigEndian(|w.entries|, 4) + tail;
    var b := PrintWire(w) + rest;
    assert b == MANIFEST_TAG + (PrintFields(w.core) + after);
    Cut(b, MANIFEST_TAG, PrintFields(w.core) + after);
    ReadFieldsPrinted(w.core, after);
    Cut(after, BigEndian(|w.entries|, 4), tail);
    U32RoundTrip(|w.entries|);
    ReadEntriesPrinted(w.entries, rest);
  }

  lemma WirePrintable(f: Lib, m: Manifest)
    requires CanonicalOutcome(f, m).Ok?
    ensures Printable(WireOf(f, m))
  {
    var w := WireOf(f, m);
    forall x | x in w.core
      ensures |x| < U32_LIMIT
    {
      var i :| 0 <= i < |w.core| && w.core[i] == x;
      assert CoreList(m.core)[i] in CoreList(m.core);
    }
    forall e | e in w.entries
      ensures |e.0| < U32_LIMIT && |e.1| < U32_LIMIT
    {
      var i :| 0 <= i < |w.entries| && w.entries[i] == e;
      assert SortEntries(f, m.extra)[i] in m.extra;
    }
  }

  /** The decoder recovers a manifest's normal form from its canonical bytes, whatever follows them. */
  lemma CanonicalDecodes(f: Lib, m: Manifest, rest: Bytes)
    requires CanonicalOutcome(f, m).Ok?
    ensures ReadWire(CanonicalForm(f, m) + rest) == Some((WireOf(f, m), rest))
  {
    WirePrintable(f, m);
    ReadWirePrinted(WireOf(f, m), rest);
  }

  /** No manifest's canonical bytes are a proper prefix of another's. */
  lemma CanonicalPrefixFree(f: Lib, m1: Manifest, m2: Manifest, rest: Bytes)
    requires CanonicalOutcome(f, m1).Ok? && CanonicalOutcome(f, m2).Ok?
    requires CanonicalForm(f, m1) + rest == CanonicalForm(f, m2)
    ensures rest == []
  {
    CanonicalDecodes(f, m1, rest);
    CanonicalDecodes(f, m2, []);
    assert CanonicalForm(f, m2) + [] == CanonicalForm(f, m2);
  }

  // Equality up to NFC

  /** The mapping from normalised keys to normalised values; a later entry overrides an earlier one. */
  function NfcMap(f: Lib, extra: seq<Entry>): map<string, string> {
    if extra == [] then map[]
    else
      var e := extra[|extra| - 1];
      NfcMap(f, extra[..|extra| - 1])[f.nfc(e.0) := f.nfc(e.1)]
  }

  function NfcCore(f: Lib, c: Core): Core {
    Core(f.nfc(c.weightsHash), f.nfc(c.quantization), f.nfc(c.kernelBuildId), f.nfc(c.tensorParallel),
         f.nfc(c.numericsMode))
  }

  /** The five core fields and the extra mappings agree after normalisation. */
  predicate NfcEqual(f: Lib, m1: Manifest, m2: Manifest) {
    NfcCore(f, m1.core) == NfcCore(f, m2.core) && NfcMap(f, m1.extra) == NfcMap(f, m2.extra)
  }

  lemma {:induction false} NfcMapHas(f: Lib, extra: seq<Entry>, k: string, v: string)
    requires DistinctNfc(f, extra)
    ensures (k in NfcMap(f, extra) && NfcMap(f, extra)[k] == v) <==>
            exists e :: e in extra && f.nfc(e.0) == k && f.nfc(e.1) == v
  {
    if extra != [] {
      var init, e := extra[..|extra| - 1], extra[|extra| - 1];
      NfcMapHas(f, init, k, v);
      assert forall x :: x in extra <==> x in init || x == e;
      assert forall x :: x in init ==> f.nfc(x.0) != f.nfc(e.0);
    }
  }

  /** A pair is on the wire exactly when the normalised mapping holds it. */
  lemma WireHas(f: Lib, extra: seq<Entry>, k: string, v: string)
    requires DistinctNfc(f, extra)
    ensures (Utf8.Encode(k), Utf8.Encode(v)) in NormEntries(f, SortEntries(f, extra)) <==>
            k in NfcMap(f, extra) && NfcMap(f, extra)[k] == v
  {
    var sorted := SortEntries(f, extra);
    var pair := (Utf8.Encode(k), Utf8.Encode(v));
    NfcMapHas(f, extra, k, v);
    if pair in NormEntries(f, sorted) {
      var i :| 0 <= i < |sorted| && NormEntries(f, sorted)[i] == pair;
      Utf8.EncodeInjective(f.nfc(sorted[i].0), k);
      Utf8.EncodeInjective(f.nfc(sorted[i].1), v);
      assert sorted[i] in extra;
    }
    if e :| e in extra && f.nfc(e.0) == k && f.nfc(e.1) == v {
      assert e in sorted;
      var i :| 0 <= i < |sorted| && sorted[i] == e;
      assert NormEntries(f, sorted)[i] == pair;
    }
  }

  /** Everything on the wire is the encoding of a normalised entry. */
  lemma WireIsEncoded(f: Lib, extra: seq<Entry>, x: (Bytes, Bytes)) returns (k: string, v: string)
    requires x in NormEntries(f, SortEntries(f, extra))
    ensures x == (Utf8.Encode(k), Utf8.Encode(v))
  {
    var sorted := SortEntries(f, extra);
    var i :| 0 <= i < |sorted| && NormEntries(f, sorted)[i] == x;
    k, v := f.nfc(sorted[i].0), f.nfc(sorted[i].1);
  }

  lemma SameMapSameWire(f: Lib, s: seq<Entry>, t: seq<Entry>)
    requires DistinctNfc(f, s) && DistinctNfc(f, t) && NfcMap(f, s) == NfcMap(f, t)
    ensures NormEntries(f, SortEntries(f, s)) == NormEntries(f, SortEntries(f, t))
  {
    var a, b := NormEntries(f, SortEntries(f, s)), NormEntries(f, SortEntries(f, t));
    SortAscends(f, s);
    SortAscends(f, t);
    forall x
      ensures x in a <==> x in b
    {
      if x in a {
        var k, v := WireIsEncoded(f, s, x);
        WireHas(f, s, k, v);
        WireHas(f, t, k, v);
      }
      if x in b {
        var k, v := WireIsEncoded(f, t, x);
        WireHas(f, s, k, v);
        WireHas(f, t, k, v);
      }
    }
    AscendingUnique(a, b);
  }

  lemma SameWireSameMap(f: Lib, s: seq<Entry>, t: seq<Entry>)
    requires DistinctNfc(f, s) && DistinctNfc(f, t)
    requires NormEntries(f, SortEntries(f, s)) == NormEntries(f, SortEntries(f, t))
    ensures NfcMap(f, s) == NfcMap(f, t)
  {
    var p, q := NfcMap(f, s), NfcMap(f, t);
    forall k
      ensures (k in p <==> k in q) && (k in p && k in q ==> p[k] == q[k])
    {
      if k in p {
        WireHas(f, s, k, p[k]);
        WireHas(f, t, k, p[k]);
      }
      if k in q {
        WireHas(f, s, k, q[k]);
        WireHas(f, t, k, q[k]);
      }
    }
  }

  lemma CoreWire(f: Lib, c: Core, d: Core)
    ensures NormList(f, CoreList(c)) == NormList(f, CoreList(d)) <==> NfcCore(f, c) == NfcCore(f, d)
  {
    var x, y := NormList(f, CoreList(c)), NormList(f, CoreList(d));
    NormInjective(f, c.weightsHash, d.weightsHash);
    NormInjective(f, c.quantization, d.quantization);
    NormInjective(f, c.kernelBuildId, d.kernelBuildId);
    NormInjective(f, c.tensorParallel, d.tensorParallel);
    NormInjective(f, c.numericsMode, d.numericsMode);
    assert x == y <==> x[0] == y[0] && x[1] == y[1] && x[2] == y[2] && x[3] == y[3] && x[4] == y[4];
  }

  /** The manifests that pass construction. */
  predicate Accepted(f: Lib, m: Manifest) {
    DistinctNfc(f, m.extra) && CanonicalOutcome(f, m).Ok?
  }

  /** Canonical bytes are injective up to NFC, and depend on nothing else: not on the order of the extras,
    * and not on how a string was composed. */
  lemma CanonicalIffNfcEqual(f: Lib, m1: Manifest, m2: Manifest)
    requires Accepted(f, m1) && Accepted(f, m2)
    ensures CanonicalForm(f, m1) == CanonicalForm(f, m2) <==> NfcEqual(f, m1, m2)
  {
    CoreWire(f, m1.core, m2.core);
    if CanonicalForm(f, m1) == CanonicalForm(f, m2) {
      CanonicalDecodes(f, m1, []);
      CanonicalDecodes(f, m2, []);
      SameWireSameMap(f, m1.extra, m2.extra);
    }
    if NfcEqual(f, m1, m2) {
      SameMapSameWire(f, m1.extra, m2.extra);
    }
  }

  // Normalising first

  function NfcEntries(f: Lib, s: seq<Entry>): (r: seq<Entry>)
    ensures |r| == |s| && forall i :: 0 <= i < |s| ==> r[i] == (f.nfc(s[i].0), f.nfc(s[i].1))
  {
    seq(|s|, i requires 0 <= i < |s| => (f.nfc(s[i].0), f.nfc(s[i].1)))
  }

  /** The same manifest with every string already composed. */
  function NfcManifest(f: Lib, m: Manifest): Manifest {
    Manifest(NfcCore(f, m.core), NfcEntries(f, m.extra))
  }

  lemma NormOfNfc(f: Lib, s: string)
    ensures f.nfc(f.nfc(s)) == f.nfc(s) && Norm(f, f.nfc(s)) == Norm(f, s)
  {
    assert Idempotent(f);
  }

  lemma {:induction false} InsertNfc(f: Lib, e: Entry, s: seq<Entry>)
    ensures NfcEntries(f, InsertEntry(f, e, s)) == InsertEntry(f, (f.nfc(e.0), f.nfc(e.1)), NfcEntries(f, s))
  {
    if s != [] {
      NormOfNfc(f, e.0);
      NormOfNfc(f, s[0].0);
      assert NfcEntries(f, s)[1..] == NfcEntries(f, s[1..]);
      if !Less(Norm(f, e.0), Norm(f, s[0].0)) {
        InsertNfc(f, e, s[1..]);
        assert InsertEntry(f, e, s) == [s[0]] + InsertEntry(f, e, s[1..]);
      }
    }
  }

  lemma {:induction false} SortNfc(f: Lib, s: seq<Entry>)
    ensures NfcEntries(f, SortEntries(f, s)) == SortEntries(f, NfcEntries(f, s))
  {
    if s != [] {
      SortNfc(f, s[..|s| - 1]);
      assert NfcEntries(f, s)[..|s| - 1] == NfcEntries(f, s[..|s| - 1]);
      InsertNfc(f, s[|s| - 1], SortEntries(f, s[..|s| - 1]));
    }
  }

  lemma NormEntriesNfc(f: Lib, s: seq<Entry>)
    ensures NormEntries(f, NfcEntries(f, s)) == NormEntries(f, s)
  {
    forall i | 0 <= i < |s|
      ensures NormEntries(f, NfcEntries(f, s))[i] == NormEntries(f, s)[i]
    {
      NormOfNfc(f, s[i].0);
      NormOfNfc(f, s[i].1);
    }
  }

  lemma DistinctAfterNfc(f: Lib, s: seq<Entry>)
    ensures DistinctNfc(f, NfcEntries(f, s)) <==> DistinctNfc(f, s)
  {
    forall i | 0 <= i < |s|
      ensures f.nfc(NfcEntries(f, s)[i].0) == f.nfc(s[i].0)
    {
      NormOfNfc(f, s[i].0);
    }
  }

  lemma CoreOfNfc(f: Lib, c: Core)
    ensures NormList(f, CoreList(NfcCore(f, c))) == NormList(f, CoreList(c))
  {
    NormOfNfc(f, c.weightsHash);
    NormOfNfc(f, c.quantization);
    NormOfNfc(f, c.kernelBuildId);
    NormOfNfc(f, c.tensorParallel);
    NormOfNfc(f, c.numericsMode);
  }

  /** Whether the strings fit their length prefixes can be read off their normalised bytes. */
  lemma CoreFitsNorm(f: Lib, c: Core)
    ensures CoreFits(f, c) <==> forall i :: 0 <= i < 5 ==> |NormList(f, CoreList(c))[i]| < U32_LIMIT
  {
    var s := CoreList(c);
    assert forall i :: 0 <= i < 5 ==> s[i] in s && NormList(f, s)[i] == Norm(f, s[i]);
  }

  lemma ExtraFitsNorm(f: Lib, s: seq<Entry>)
    ensures ExtraFits(f, s) <==>
            forall i :: 0 <= i < |s| ==> |NormEntries(f, s)[i].0| < U32_LIMIT && |NormEntries(f, s)[i].1| < U32_LIMIT
  {
    assert forall i :: 0 <= i < |s| ==> s[i] in s && NormEntries(f, s)[i] == (Norm(f, s[i].0), Norm(f, s[i].1));
  }

  /** Composing the strings beforehand changes no outcome of construction and not one canonical byte. */
  lemma NormalisingFirst(f: Lib, m: Manifest)
    ensures CanonicalOutcome(f, NfcManifest(f, m)) == CanonicalOutcome(f, m)
    ensures DistinctNfc(f, NfcManifest(f, m).extra) <==> DistinctNfc(f, m.extra)
  {
    var n := NfcManifest(f, m);
    DistinctAfterNfc(f, m.extra);
    CoreOfNfc(f, m.core);
    CoreFitsNorm(f, m.core);
    CoreFitsNorm(f, n.core);
    NormEntriesNfc(f, m.extra);
    ExtraFitsNorm(f, m.extra);
    ExtraFitsNorm(f, n.extra);
    SortNfc(f, m.extra);
    NormEntriesNfc(f, SortEntries(f, m.extra));
  }

  lemma {:induction false} ReorderedMap(f: Lib, s: seq<Entry>, t: seq<Entry>)
    requires DistinctNfc(f, s) && DistinctNfc(f, t) && forall e :: e in s <==> e in t
    ensures NfcMap(f, s) == NfcMap(f, t)
  {
    var p, q := NfcMap(f, s), NfcMap(f, t);
    forall k
      ensures (k in p <==> k in q) && (k in p && k in q ==> p[k] == q[k])
    {
      if k in p {
        NfcMapHas(f, s, k, p[k]);
        NfcMapHas(f, t, k, p[k]);
      }
      if k in q {
        NfcMapHas(f, s, k, q[k]);
        NfcMapHas(f, t, k, q[k]);
      }
    }
  }

  /** Any two enumerations of one accepted mapping have the same canonical bytes. */
  lemma OrderIndependent(f: Lib, core: Core, s: seq<Entry>, t: seq<Entry>)
    requires DistinctNfc(f, s) && DistinctNfc(f, t) && forall e :: e in s <==> e in t
    ensures CanonicalForm(f, Manifest(core, s)) == CanonicalForm(f, Manifest(core, t))
  {
    ReorderedMap(f, s, t);
    SameMapSameWire(f, s, t);
  }

  // Without the collision check

  /** What an entry contributes to the values of one normalised key. */
  function ValueOf(f: Lib, e: Entry, k: Bytes): seq<Bytes> {
    if Norm(f, e.0) == k then [Norm(f, e.1)] else []
  }

  /** The normalised values of one normalised key, in order. */
  function Values(f: Lib, s: seq<Entry>, k: Bytes): seq<Bytes> {
    if s == [] then [] else ValueOf(f, s[0], k) + Values(f, s[1..], k)
  }

  lemma {:induction false} ValuesAppend(f: Lib, a: seq<Entry>, b: seq<Entry>, k: Bytes)
    ensures Values(f, a + b, k) == Values(f, a, k) + Values(f, b, k)
  {
    if a == [] {
      assert a + b == b;
    } else {
      ValuesAppend(f, a[1..], b, k);
      assert (a + b)[1..] == a[1..] + b;
      Associative(ValueOf(f, a[0], k), Values(f, a[1..], k), Values(f, b, k));
    }
  }

  lemma {:induction false} NoValues(f: Lib, s: seq<Entry>, k: Bytes)
    requires forall e :: e in s ==> Norm(f, e.0) != k
    ensures Values(f, s, k) == []
  {
    if s != [] {
      NoValues(f, s[1..], k);
    }
  }

  lemma {:induction false} SameWireSameValues(f: Lib, s: seq<Entry>, t: seq<Entry>, k: Bytes)
    requires NormEntries(f, s) == NormEntries(f, t)
    ensures Values(f, s, k) == Values(f, t, k)
  {
    if s != [] {
      assert |s| == |t| && NormEntries(f, s)[0] == NormEntries(f, t)[0];
      assert NormEntries(f, s[1..]) == NormEntries(f, s)[1..] == NormEntries(f, t)[1..] == NormEntries(f, t[1..]);
      SameWireSameValues(f, s[1..], t[1..], k);
    }
  }

  /** No entry's key is before `n`. */
  predicate NoneBefore(f: Lib, s: seq<Entry>, n: Bytes) {
    forall e :: e in s ==> !Less(Norm(f, e.0), n)
  }

  /** Keys never decrease; equal keys may stand next to each other. */
  predicate Ordered(f: Lib, s: seq<Entry>) {
    s == [] || (NoneBefore(f, s[1..], Norm(f, s[0].0)) && Ordered(f, s[1..]))
  }

  /** Everything in an ordered sequence is behind what its first key is behind. */
  lemma BeforeAll(f: Lib, s: seq<Entry>, n: Bytes, e: Entry)
    requires Ordered(f, s) && s != [] && Less(n, Norm(f, s[0].0)) && e in s
    ensures !Less(Norm(f, e.0), n) && Norm(f, e.0) != n
  {
    if Less(Norm(f, e.0), n) {
      LessTransitive(Norm(f, e.0), n, Norm(f, s[0].0));
    }
    if e == s[0] {
      LessIrreflexive(Norm(f, e.0));
    } else {
      assert s == [s[0]] + s[1..];
    }
  }

  lemma {:induction false} InsertOrdered(f: Lib, e: Entry, s: seq<Entry>)
    requires Ordered(f, s)
    ensures Ordered(f, InsertEntry(f, e, s))
  {
    var r := InsertEntry(f, e, s);
    if s != [] {
      if Less(Norm(f, e.0), Norm(f, s[0].0)) {
        forall x | x in s
          ensures !Less(Norm(f, x.0), Norm(f, e.0))
        {
          BeforeAll(f, s, Norm(f, e.0), x);
        }
        assert r[1..] == s;
      } else {
        InsertOrdered(f, e, s[1..]);
        assert r[1..] == InsertEntry(f, e, s[1..]);
      }
    }
  }

  /** An entry is inserted behind those with its key. */
  lemma {:induction false} InsertValues(f: Lib, e: Entry, s: seq<Entry>, k: Bytes)
    requires Ordered(f, s)
    ensures Values(f, InsertEntry(f, e, s), k) == Values(f, s, k) + ValueOf(f, e, k)
  {
    var r := InsertEntry(f, e, s);
    if s == [] {
      assert r[1..] == [];
    } else if Less(Norm(f, e.0), Norm(f, s[0].0)) {
      assert r[1..] == s;
      if Norm(f, e.0) == k {
        forall x | x in s
          ensures Norm(f, x.0) != k
        {
          BeforeAll(f, s, k, x);
        }
        NoValues(f, s, k);
      }
    } else {
      InsertValues(f, e, s[1..], k);
      assert r[1..] == InsertEntry(f, e, s[1..]);
      Associative(ValueOf(f, s[0], k), Values(f, s[1..], k), ValueOf(f, e, k));
    }
  }

  /** Sorting keeps the order of the values of each key. */
  lemma {:induction false} SortIsStable(f: Lib, s: seq<Entry>, k: Bytes)
    ensures Ordered(f, SortEntries(f, s))
    ensures Values(f, SortEntries(f, s), k) == Values(f, s, k)
  {
    if s != [] {
      var init, e := s[..|s| - 1], s[|s| - 1];
      SortIsStable(f, init, k);
      InsertOrdered(f, e, SortEntries(f, init));
      InsertValues(f, e, SortEntries(f, init), k);
      assert s == init + [e];
      ValuesAppend(f, init, [e], k);
      assert [e][1..] == [];
    }
  }

  lemma ValuesAround(f: Lib, a: seq<Entry>, e: Entry, b: seq<Entry>, k: Bytes)
    ensures Values(f, a + [e] + b, k) == Values(f, a, k) + ValueOf(f, e, k) + Values(f, b, k)
  {
    ValuesAppend(f, a + [e], b, k);
    ValuesAppend(f, a, [e], k);
    assert [e][1..] == [];
  }

  /** The entries with places `i` and `j` exchanged. */
  function Swapped(s: seq<Entry>, i: nat, j: nat): (t: seq<Entry>)
    requires i < j < |s|
  {
    s[i := s[j]][j := s[i]]
  }

  lemma SwappedEntries(s: seq<Entry>, i: nat, j: nat)
    requires i < j < |s|
    ensures |Swapped(s, i, j)| == |s| && forall e :: e in Swapped(s, i, j) <==> e in s
  {
    var t := Swapped(s, i, j);
    assert t[i] == s[j] && t[j] == s[i] && forall k :: 0 <= k < |s| && k != i && k != j ==> t[k] == s[k];
    forall k | 0 <= k < |s|
      ensures s[k] in t && t[k] in s
    {
      assert t[if k == i then j else if k == j then i else k] == s[k];
    }
  }

  /** The collision check is what makes the encoding canonical: in any mapping that would otherwise be accepted, two
    * keys that normalise alike, with values that do not, are encoded in enumeration order, so exchanging them changes
    * the bytes. */
  lemma CollidingKeysDependOnOrder(f: Lib, core: Core, s: seq<Entry>, i: nat, j: nat)
    requires i < j < |s| && f.nfc(s[i].0) == f.nfc(s[j].0) && f.nfc(s[i].1) != f.nfc(s[j].1)
    requires CanonicalOutcome(f, Manifest(core, s)).Ok?
    ensures CanonicalOutcome(f, Manifest(core, Swapped(s, i, j))).Ok?
    ensures CanonicalForm(f, Manifest(core, Swapped(s, i, j))) != CanonicalForm(f, Manifest(core, s))
  {
    SwappedEntries(s, i, j);
    SameEntriesFit(f, s, Swapped(s, i, j));
    if CanonicalForm(f, Manifest(core, Swapped(s, i, j))) == CanonicalForm(f, Manifest(core, s)) {
      SameFormSameWire(f, Manifest(core, s), Manifest(core, Swapped(s, i, j)));
      SameWireSameValues(f, SortEntries(f, s), SortEntries(f, Swapped(s, i, j)), Norm(f, s[i].0));
      SortIsStable(f, s, Norm(f, s[i].0));
      SortIsStable(f, Swapped(s, i, j), Norm(f, s[i].0));
      SwappedValues(f, s, i, j);
    }
  }

  lemma SameEntriesFit(f: Lib, s: seq<Entry>, t: seq<Entry>)
    requires forall e :: e in s <==> e in t
    ensures ExtraFits(f, s) <==> ExtraFits(f, t)
  {
  }

  lemma SameFormSameWire(f: Lib, m1: Manifest, m2: Manifest)
    requires CanonicalOutcome(f, m1).Ok? && CanonicalOutcome(f, m2).Ok? && CanonicalForm(f, m1) == CanonicalForm(f, m2)
    ensures NormEntries(f, SortEntries(f, m1.extra)) == NormEntries(f, SortEntries(f, m2.extra))
  {
    CanonicalDecodes(f, m1, []);
    CanonicalDecodes(f, m2, []);
  }

  lemma SwappedValues(f: Lib, s: seq<Entry>, i: nat, j: nat)
    requires i < j < |s| && f.nfc(s[i].0) == f.nfc(s[j].0) && f.nfc(s[i].1) != f.nfc(s[j].1)
    ensures Values(f, Swapped(s, i, j), Norm(f, s[i].0)) != Values(f, s, Norm(f, s[i].0))
  {
    var t, k, a := Swapped(s, i, j), Norm(f, s[i].0), s[..i];
    assert s == a + [s[i]] + s[i + 1..] && t == a + [s[j]] + t[i + 1..];
    ValuesAround(f, a, s[i], s[i + 1..], k);
    ValuesAround(f, a, s[j], t[i + 1..], k);
    NormInjective(f, s[i].1, s[j].1);
    var at := |Values(f, a, k)|;
    assert Values(f, s, k)[at] == Norm(f, s[i].1) && Values(f, t, k)[at] == Norm(f, s[j].1);
  }
}
