/** The second, JavaScript implementation of the deterministic parts, and its agreement with the first. */
module VerifyVectors {
  import opened Results
  import opened ByteStrings
  import opened Primitives
  import opened Manifests
  import opened Canonical
  import Envelope
  import Utf8

  /** `Buffer.from(s)`. */
  function Buffer(s: string): Bytes {
    Utf8.Encode(s)
  }

  const MANIFEST_TAG: Bytes := Buffer("SCEMAN1")
  const MAGIC: Bytes := Buffer("SCE4")
  const DOMAIN: Bytes := Buffer("LDDP-SCE-v4")
  const COMMIT_LABEL: Bytes := Buffer("|commit|")
  const HEADER_LABEL: Bytes := Buffer("|hdr|")
  const KDF_INFO_PREFIX: Bytes := Buffer("LDDP-SCE|kdf-v4|")
  const KDF_CANON_TAG: Bytes := Buffer("LDDP-SCE|kdf-canon-v4")

  /** `writeUInt32BE(n >>> 0)`: the shift keeps the low 32 bits. */
  function U32be(n: nat): Bytes {
    [n / 0x100_0000 % 0x100, n / 0x1_0000 % 0x100, n / 0x100 % 0x100, n % 0x100]
  }

  /** `writeBigUInt64BE(BigInt(n))`, high word first, of an integer a double holds exactly. */
  function U64be(n: nat): Bytes {
    U32be(n / U32_LIMIT) + U32be(n)
  }

  function EncStr(f: Lib, s: string): Bytes {
    U32be(|Buffer(f.nfc(s))|) + Buffer(f.nfc(s))
  }

  function Lp(b: Bytes): Bytes {
    U32be(|b|) + b
  }

  /** The values of `CORE_FIELDS`, in its order. */
  function CoreFields(core: Core): (s: seq<string>)
    ensures |s| == 5
  {
    [core.weightsHash, core.quantization, core.kernelBuildId, core.tensorParallel, core.numericsMode]
  }

  /** What the first loop pushes, field by field. */
  function EncCore(f: Lib, core: Core): Bytes {
    EncStr(f, core.weightsHash) + EncStr(f, core.quantization) + EncStr(f, core.kernelBuildId)
    + EncStr(f, core.tensorParallel) + EncStr(f, core.numericsMode)
  }

  lemma EncCoreIsNames(f: Lib, core: Core)
    ensures EncNames(f, CoreFields(core)) == EncCore(f, core)
  {
    var s := CoreFields(core);
    assert s[..4][..3] == s[..3] && s[..3][..2] == s[..2] && s[..2][..1] == s[..1] && s[..1][..0] == [];
    assert EncNames(f, s[..1]) == EncNames(f, []) + EncStr(f, s[0]);
    assert EncNames(f, s[..2]) == EncNames(f, s[..1]) + EncStr(f, s[1]);
    assert EncNames(f, s[..3]) == EncNames(f, s[..2]) + EncStr(f, s[2]);
    assert EncNames(f, s[..4]) == EncNames(f, s[..3]) + EncStr(f, s[3]);
    assert EncNames(f, []) + EncStr(f, s[0]) == EncStr(f, s[0]);
  }

  /** `Object.keys`: every key once, in whatever order the engine keeps them. */
  ghost predicate Enumerates(keys: seq<string>, extra: map<string, string>) {
    (forall i, j :: 0 <= i < j < |keys| ==> keys[i] != keys[j]) && forall k :: k in keys <==> k in extra
  }

  /** What `keys.sort(...)` may return: the same keys, none before a key that compares smaller. */
  predicate Sorts(f: Lib, keys: seq<string>, sorted: seq<string>) {
    && multiset(sorted) == multiset(keys)
    && forall i, j :: 0 <= i < j < |sorted| ==> !Less(Buffer(f.nfc(sorted[j])), Buffer(f.nfc(sorted[i])))
  }

  function EncNames(f: Lib, names: seq<string>): Bytes {
    if names == [] then [] else EncNames(f, names[..|names| - 1]) + EncStr(f, names[|names| - 1])
  }

  function EncKeys(f: Lib, extra: map<string, string>, sorted: seq<string>): Bytes
    requires forall k :: k in sorted ==> k in extra
  {
    if sorted == [] then []
    else
      var k := sorted[|sorted| - 1];
      EncKeys(f, extra, sorted[..|sorted| - 1]) + (EncStr(f, k) + EncStr(f, extra[k]))
  }

  lemma EncNamesTake(f: Lib, names: seq<string>, i: nat, parts: seq<Bytes>, head: Bytes)
    requires i < |names| && Concat(parts) == head + EncNames(f, names[..i])
    ensures Concat(parts + [EncStr(f, names[i])]) == head + EncNames(f, names[..i + 1])
  {
    ConcatSnoc(parts, EncStr(f, names[i]));
    assert names[..i + 1][..i] == names[..i];
  }

  lemma EncKeysTake(f: Lib, extra: map<string, string>, sorted: seq<string>, i: nat, parts: seq<Bytes>, head: Bytes)
    requires i < |sorted| && forall k :: k in sorted ==> k in extra
    requires Concat(parts) == head + EncKeys(f, extra, sorted[..i])
    ensures Concat(parts + [EncStr(f, sorted[i])] + [EncStr(f, extra[sorted[i]])]) ==
            head + EncKeys(f, extra, sorted[..i + 1])
  {
    var x, y := EncStr(f, sorted[i]), EncStr(f, extra[sorted[i]]);
    ConcatSnoc(parts, x);
    ConcatSnoc(parts + [x], y);
    assert sorted[..i + 1][..i] == sorted[..i];
    assert EncKeys(f, extra, sorted[..i + 1]) == EncKeys(f, extra, sorted[..i]) + (x + y);
    Associative(Concat(parts), x, y);
    Associative(head, EncKeys(f, extra, sorted[..i]), x + y);
  }

  /** `canonicalManifest`, given the order the engine's sort settled on. */
  method CanonicalManifest(f: Lib, core: Core, extra: map<string, string>, ghost keys: seq<string>,
                           sorted: seq<string>)
    returns (b: Bytes)
    requires Enumerates(keys, extra) && Sorts(f, keys, sorted)
    ensures forall k :: k in sorted ==> k in extra
    ensures b == MANIFEST_TAG + EncCore(f, core) + U32be(|sorted|) + EncKeys(f, extra, sorted)
  {
    SortedKeys(f, keys, sorted);
    var parts := [MANIFEST_TAG];
    assert Concat(parts) == MANIFEST_TAG + Concat([]);
    var fields := CoreFields(core);
    for i := 0 to |fields|
      invariant Concat(parts) == MANIFEST_TAG + EncNames(f, fields[..i])
    {
      EncNamesTake(f, fields, i, parts, MANIFEST_TAG);
      parts := parts + [EncStr(f, fields[i])];
    }
    assert fields[..|fields|] == fields;
    EncCoreIsNames(f, core);
    ConcatSnoc(parts, U32be(|sorted|));
    parts := parts + [U32be(|sorted|)];
    ghost var head := Concat(parts);
    for i := 0 to |sorted|
      invariant Concat(parts) == head + EncKeys(f, extra, sorted[..i])
    {
      EncKeysTake(f, extra, sorted, i, parts, head);
      parts := parts + [EncStr(f, sorted[i])];
      parts := parts + [EncStr(f, extra[sorted[i]])];
    }
    assert sorted[..|sorted|] == sorted;
    b := Concat(parts);
  }

  type SafeInteger = n: int | 0 <= n < 0x20_0000_0000_0000

  function KdfCanonical(context: string, epoch: SafeInteger, memh: Digest): Bytes {
    KDF_CANON_TAG + Lp(Buffer(context)) + Lp(U64be(epoch)) + Lp(memh)
  }

  function KdfInfo(f: Lib, context: string, epoch: SafeInteger, memh: Digest): Bytes
  {
    KDF_INFO_PREFIX + f.sha3(KdfCanonical(context, epoch, memh))
  }

  function DeriveKeyMaterial(f: Lib, secret: Bytes, memh: Digest, epoch: SafeInteger, context: string, salt: Salt)
    : Envelope.KeyMaterial
  {
    var material := f.hkdf(secret, salt, KdfInfo(f, context, epoch, memh));
    Envelope.KeyMaterial(material[0..32],
                         f.sha3(DOMAIN + COMMIT_LABEL + material[32..64]))
  }

  function Aad(nonce: Nonce, salt: Salt, commitment: Digest, memh: Digest, epoch: SafeInteger): Bytes
  {
    var prefix := MAGIC + [4] + nonce + salt + commitment;
    DOMAIN + HEADER_LABEL + prefix + memh + U64be(epoch)
  }

  // Agreement

  lemma {:induction false} BufferIsAscii(s: string)
    requires forall c :: c in s ==> c as int < 0x80
    ensures Buffer(s) == Ascii(s)
  {
    if s != "" {
      assert s[0] in s && forall c :: c in s[1..] ==> c in s;
      BufferIsAscii(s[1..]);
      assert Ascii(s) == Ascii([s[0]]) + Ascii(s[1..]);
    }
  }

  lemma ManifestTagAgrees()
    ensures MANIFEST_TAG == Manifests.MANIFEST_TAG
  {
    BufferIsAscii("SCEMAN1");
  }

  lemma MagicAgrees()
    ensures MAGIC == Envelope.MAGIC
  {
    BufferIsAscii("SCE4");
  }

  lemma DomainAgrees()
    ensures DOMAIN == Envelope.DOMAIN
  {
    BufferIsAscii("LDDP-SCE-v4");
  }

  lemma CommitLabelAgrees()
    ensures COMMIT_LABEL == Envelope.COMMIT_LABEL
  {
    BufferIsAscii("|commit|");
  }

  lemma HeaderLabelAgrees()
    ensures HEADER_LABEL == Envelope.HEADER_LABEL
  {
    BufferIsAscii("|hdr|");
  }

  lemma InfoPrefixAgrees()
    ensures KDF_INFO_PREFIX == Envelope.KDF_INFO_PREFIX
  {
    BufferIsAscii("LDDP-SCE|kdf-v4|");
  }

  lemma CanonTagAgrees()
    ensures KDF_CANON_TAG == Envelope.KDF_CANON_TAG
  {
    BufferIsAscii("LDDP-SCE|kdf-canon-v4");
  }

  lemma U32beIsBigEndian(n: nat)
    ensures U32be(n) == BigEndian(n, 4)
  {
    U32Digits(n);
  }

  lemma U64beIsBigEndian(n: nat)
    ensures U64be(n) == BigEndian(n, 8)
  {
    U64Digits(n);
    U32beIsBigEndian(n / U32_LIMIT);
    U32beIsBigEndian(n);
  }

  lemma SortedKeys(f: Lib, keys: seq<string>, sorted: seq<string>)
    requires Sorts(f, keys, sorted)
    ensures |sorted| == |keys| && forall k :: k in sorted <==> k in keys
  {
    assert |multiset(sorted)| == |multiset(keys)|;
    assert forall k :: k in sorted <==> k in multiset(sorted);
    assert forall k :: k in keys <==> k in multiset(keys);
  }

  /** The entries in the order the sort settled on. */
  function Pairs(extra: map<string, string>, sorted: seq<string>): (s: seq<Entry>)
    requires forall k :: k in sorted ==> k in extra
    ensures |s| == |sorted| && forall i :: 0 <= i < |s| ==> s[i] == (sorted[i], extra[sorted[i]])
  {
    seq(|sorted|, i requires 0 <= i < |sorted| => (sorted[i], extra[sorted[i]]))
  }

  lemma EncStrIsLp(f: Lib, s: string)
    ensures EncStr(f, s) == ByteStrings.Lp(Norm(f, s))
  {
    U32beIsBigEndian(|Norm(f, s)|);
  }

  lemma {:induction false} EncNamesPrints(f: Lib, names: seq<string>)
    ensures EncNames(f, names) == PrintFields(NormList(f, names))
  {
    if names != [] {
      var init, x := names[..|names| - 1], names[|names| - 1];
      EncNamesPrints(f, init);
      EncStrIsLp(f, x);
      PrintFieldsSnoc(NormList(f, init), Norm(f, x));
      assert NormList(f, names) == NormList(f, init) + [Norm(f, x)];
    }
  }

  lemma {:induction false} EncKeysPrints(f: Lib, extra: map<string, string>, sorted: seq<string>)
    requires forall k :: k in sorted ==> k in extra
    ensures EncKeys(f, extra, sorted) == PrintEntries(NormEntries(f, Pairs(extra, sorted)))
  {
    if sorted != [] {
      var init, k := sorted[..|sorted| - 1], sorted[|sorted| - 1];
      EncKeysPrints(f, extra, init);
      U32beIsBigEndian(|Norm(f, k)|);
      U32beIsBigEndian(|Norm(f, extra[k])|);
      AppendPair(f, extra, sorted);
      PrintEntriesSnoc(NormEntries(f, Pairs(extra, init)), (Norm(f, k), Norm(f, extra[k])));
    }
  }

  lemma AppendPair(f: Lib, extra: map<string, string>, sorted: seq<string>)
    requires sorted != [] && forall k :: k in sorted ==> k in extra
    ensures var init, k := sorted[..|sorted| - 1], sorted[|sorted| - 1];
            NormEntries(f, Pairs(extra, sorted)) ==
            NormEntries(f, Pairs(extra, init)) + [(Norm(f, k), Norm(f, extra[k]))]
  {
  }

  /** `items` enumerates `extra` as Python does. */
  ghost predicate ItemsOf(items: seq<Entry>, extra: map<string, string>) {
    forall k, v :: (k, v) in items <==> k in extra && extra[k] == v
  }

  lemma NfcKeysDistinct(f: Lib, items: seq<Entry>, extra: map<string, string>, j: string, k: string)
    requires DistinctNfc(f, items) && ItemsOf(items, extra) && j in extra && k in extra && j != k
    ensures f.nfc(j) != f.nfc(k)
  {
    assert (j, extra[j]) in items && (k, extra[k]) in items;
  }

  /** Keys in the engine's order ascend strictly, as the accepted manifest has no two alike. */
  lemma EngineOrderAscends(f: Lib, items: seq<Entry>, extra: map<string, string>, keys: seq<string>,
                           sorted: seq<string>)
    requires DistinctNfc(f, items) && ItemsOf(items, extra) && Enumerates(keys, extra) && Sorts(f, keys, sorted)
    ensures forall k :: k in sorted <==> k in extra
    ensures Ascending(NormEntries(f, Pairs(extra, sorted)))
  {
    SortedKeys(f, keys, sorted);
    forall i, j | 0 <= i < j < |sorted|
      ensures Less(Norm(f, sorted[i]), Norm(f, sorted[j]))
    {
      PermutationDistinct(keys, sorted, i, j);
      NfcKeysDistinct(f, items, extra, sorted[i], sorted[j]);
      NormInjective(f, sorted[i], sorted[j]);
      LessTotal(Norm(f, sorted[i]), Norm(f, sorted[j]));
    }
  }

  lemma {:induction false} CountDistinct(keys: seq<string>, k: string)
    requires forall i, j :: 0 <= i < j < |keys| ==> keys[i] != keys[j]
    ensures multiset(keys)[k] <= 1
  {
    if keys != [] {
      CountDistinct(keys[1..], k);
      assert keys == [keys[0]] + keys[1..];
      assert keys[0] !in keys[1..];
    }
  }

  lemma PermutationDistinct(keys: seq<string>, sorted: seq<string>, i: nat, j: nat)
    requires forall i, j :: 0 <= i < j < |keys| ==> keys[i] != keys[j]
    requires multiset(sorted) == multiset(keys) && i < j < |sorted|
    ensures sorted[i] != sorted[j]
  {
    CountDistinct(keys, sorted[i]);
    assert sorted == sorted[..i] + [sorted[i]] + sorted[i + 1..j] + [sorted[j]] + sorted[j + 1..];
  }

  /** For every manifest the first implementation accepts, the second prints the same canonical bytes, from
    * whatever permutation of the keys it starts and however its engine sorts. */
  lemma CanonicalsAgree(f: Lib, core: Core, items: seq<Entry>, extra: map<string, string>, keys: seq<string>,
                        sorted: seq<string>)
    requires Accepted(f, Manifest(core, items)) && ItemsOf(items, extra)
    requires Enumerates(keys, extra) && Sorts(f, keys, sorted)
    ensures forall k :: k in sorted <==> k in extra
    ensures MANIFEST_TAG + EncCore(f, core) + U32be(|sorted|) + EncKeys(f, extra, sorted) ==
            CanonicalForm(f, Manifest(core, items))
  {
    EngineOrderAscends(f, items, extra, keys, sorted);
    var a, b := Pairs(extra, sorted), SortEntries(f, items);
    SortAscends(f, items);
    forall e: Entry
      ensures e in a <==> e in b
    {
      if e in b {
        assert (e.0, e.1) in items;
        var i :| 0 <= i < |sorted| && sorted[i] == e.0;
        assert a[i] == e;
      }
      if e in a {
        assert (e.0, e.1) in items;
      }
    }
    SameEntriesSameWire(f, a, b);
    ManifestTagAgrees();
    U32beIsBigEndian(|sorted|);
    EncCoreIsNames(f, core);
    EncNamesPrints(f, CoreFields(core));
    EncKeysPrints(f, extra, sorted);
  }

  lemma LpAgrees(b: Bytes)
    ensures Lp(b) == ByteStrings.Lp(b)
  {
    U32beIsBigEndian(|b|);
  }

  lemma KdfCanonicalAgrees(context: string, epoch: SafeInteger, memh: Digest)
    ensures KdfCanonical(context, epoch, memh) == Envelope.KdfCanonical(Buffer(context), epoch, memh)
  {
    CanonTagAgrees();
    U64beIsBigEndian(epoch);
    LpAgrees(Buffer(context));
    LpAgrees(U64be(epoch));
    LpAgrees(memh);
  }

  /** For every context the first implementation admits, both build the same info string. */
  lemma KdfInfoAgrees(f: Lib, context: string, epoch: SafeInteger, memh: Digest)
    requires |Buffer(context)| <= Envelope.MAX_LP_FIELD
    ensures Envelope.KdfInfo(f, Buffer(context), epoch, memh) == Ok(KdfInfo(f, context, epoch, memh))
  {
    KdfCanonicalAgrees(context, epoch, memh);
    InfoPrefixAgrees();
  }

  lemma Halves(material: Material)
    ensures material[0..32] == material[..32] && material[32..64] == material[32..]
  {
  }

  /** For epochs a double holds exactly and secrets and contexts the first implementation admits, both derive the
    * same key and commitment. */
  lemma KeyMaterialAgrees(f: Lib, secret: Bytes, memh: Digest, epoch: SafeInteger, context: string, salt: Salt)
    requires |secret| >= 16 && |Buffer(context)| <= Envelope.MAX_LP_FIELD
    ensures Envelope.DeriveKeyMaterial(f, secret, memh, epoch, Buffer(context), salt) ==
            Ok(DeriveKeyMaterial(f, secret, memh, epoch, context, salt))
  {
    KdfInfoAgrees(f, context, epoch, memh);
    DomainAgrees();
    CommitLabelAgrees();
    Halves(f.hkdf(secret, salt, KdfInfo(f, context, epoch, memh)));
  }

  /** Both build the same associated data. */
  lemma AadAgrees(nonce: Nonce, salt: Salt, commitment: Digest, memh: Digest, epoch: SafeInteger)
    ensures Envelope.Aad(Envelope.HeaderPrefix(nonce, salt, commitment), memh, epoch) ==
            Aad(nonce, salt, commitment, memh, epoch)
  {
    MagicAgrees();
    DomainAgrees();
    HeaderLabelAgrees();
    U64beIsBigEndian(epoch);
  }
}
