/** The manifest object: frozen after construction, with its fingerprint computed once. */
module ModelManifests {
  import opened Results
  import opened ByteStrings
  import opened Primitives
  import opened Manifests
  import opened Canonical
  import Utf8

  function Fingerprint(f: Lib, m: Manifest): Digest {
    f.sha3(CanonicalForm(f, m))
  }

  predicate DistinctKeys(items: seq<Entry>) {
    forall i, j :: 0 <= i < j < |items| ==> items[i].0 != items[j].0
  }

  /** `d[key] = value` on a mapping listed in insertion order. */
  function PutItem(items: seq<Entry>, key: string, value: string): seq<Entry> {
    if items == [] then [(key, value)]
    else if items[0].0 == key then [(key, value)] + items[1..]
    else [items[0]] + PutItem(items[1..], key, value)
  }

  /** `d.pop(key, None)`. */
  function RemoveItem(items: seq<Entry>, key: string): seq<Entry> {
    if items == [] then []
    else if items[0].0 == key then items[1..]
    else [items[0]] + RemoveItem(items[1..], key)
  }

  lemma DistinctTail(items: seq<Entry>)
    requires items != [] && DistinctKeys(items)
    ensures DistinctKeys(items[1..]) && forall x :: x in items[1..] <==> x in items && x.0 != items[0].0
  {
    assert items == [items[0]] + items[1..];
    assert forall i :: 0 <= i < |items[1..]| ==> items[1..][i] == items[i + 1];
  }

  lemma DistinctCons(x: Entry, items: seq<Entry>)
    requires DistinctKeys(items) && forall y :: y in items ==> y.0 != x.0
    ensures DistinctKeys([x] + items)
  {
  }

  lemma {:induction false} PutItemHolds(items: seq<Entry>, key: string, value: string)
    requires DistinctKeys(items)
    ensures DistinctKeys(PutItem(items, key, value))
    ensures forall x :: x in PutItem(items, key, value) <==> x == (key, value) || (x in items && x.0 != key)
  {
    if items != [] {
      DistinctTail(items);
      if items[0].0 == key {
        DistinctCons((key, value), items[1..]);
      } else {
        PutItemHolds(items[1..], key, value);
        DistinctCons(items[0], PutItem(items[1..], key, value));
      }
    }
  }

  lemma {:induction false} RemoveItemHolds(items: seq<Entry>, key: string)
    requires DistinctKeys(items)
    ensures DistinctKeys(RemoveItem(items, key))
    ensures forall x :: x in RemoveItem(items, key) <==> x in items && x.0 != key
  {
    if items != [] {
      DistinctTail(items);
      if items[0].0 != key {
        RemoveItemHolds(items[1..], key);
        DistinctCons(items[0], RemoveItem(items[1..], key));
      }
    }
  }

  /** A mutable mapping of str to str, as its owner sees it. */
  class Dict {
    var items: seq<Entry>

    ghost predicate Valid()
      reads this
    {
      DistinctKeys(items)
    }

    constructor (items: seq<Entry>)
      requires DistinctKeys(items)
      ensures this.items == items
    {
      this.items := items;
    }

    method Put(key: string, value: string)
      requires Valid()
      modifies this
      ensures Valid() && items == PutItem(old(items), key, value)
    {
      PutItemHolds(items, key, value);
      items := PutItem(items, key, value);
    }

    method Remove(key: string)
      requires Valid()
      modifies this
      ensures Valid() && items == RemoveItem(old(items), key)
    {
      RemoveItemHolds(items, key);
      items := RemoveItem(items, key);
    }

    /** `dict(self)`. */
    method Copy() returns (d: Dict)
      requires Valid()
      ensures fresh(d) && d.Valid() && d.items == items
    {
      d := new Dict(items);
    }
  }

  /** The outcome of construction, with the errors in the order the code meets them. */
  function ConstructionError(f: Lib, m: Manifest): Option<Error> {
    if !DistinctNfc(f, m.extra) then Some(SceError)
    else if CanonicalOutcome(f, m).Err? then Some(CanonicalOutcome(f, m).error)
    else None
  }

  /** Every outcome of construction, with its exact condition: a native error for too many entries, the library's own
    * for keys that collide and for strings too long, otherwise none. */
  lemma ConstructionClasses(f: Lib, m: Manifest)
    ensures var collide := exists i, j :: 0 <= i < j < |m.extra| && f.nfc(m.extra[i].0) == f.nfc(m.extra[j].0);
            var coreFits := TextFits(f, m.core.weightsHash) && TextFits(f, m.core.quantization)
                            && TextFits(f, m.core.kernelBuildId) && TextFits(f, m.core.tensorParallel)
                            && TextFits(f, m.core.numericsMode);
            var extraFits := forall e :: e in m.extra ==> TextFits(f, e.0) && TextFits(f, e.1);
            && (ConstructionError(f, m) == Some(NativeError) <==> !collide && coreFits && |m.extra| >= 4294967296)
            && (ConstructionError(f, m).None? <==> !collide && coreFits && |m.extra| < 4294967296 && extraFits)
            && (ConstructionError(f, m).Some? && ConstructionError(f, m).value != NativeError ==>
                 ConstructionError(f, m) == Some(SceError))
  {
    CoreFitsEach(f, m.core);
  }

  predicate TextFits(f: Lib, s: string) {
    |Utf8.Encode(f.nfc(s))| <= 4294967295
  }

  lemma CoreFitsEach(f: Lib, c: Core)
    ensures CoreFits(f, c) <==>
            TextFits(f, c.weightsHash) && TextFits(f, c.quantization) && TextFits(f, c.kernelBuildId)
            && TextFits(f, c.tensorParallel) && TextFits(f, c.numericsMode)
  {
    var s := CoreList(c);
    assert s[0] in s && s[1] in s && s[2] in s && s[3] in s && s[4] in s;
    assert forall x :: x in s ==> x == s[0] || x == s[1] || x == s[2] || x == s[3] || x == s[4];
  }

  /** An exception outside the library's hierarchy escapes construction exactly when the mapping has more entries than
    * their four-byte count can say and nothing before the count is refused. */
  lemma ConstructionEscapesIff(f: Lib, m: Manifest)
    ensures ConstructionError(f, m) == Some(NativeError) <==>
            DistinctNfc(f, m.extra) && CoreFits(f, m.core) && |m.extra| >= U32_LIMIT
  {
  }

  function LongKey(length: nat): (key: string)
    ensures |key| == length
  {
    seq(length, _ => 'a')
  }

  /** With 2^32 entries, keyed by strings of each length below that, it does, under every normalisation that leaves
    * those keys and the empty string as they are, as NFC leaves all of ASCII. */
  lemma ManyExtrasEscape(f: Lib)
    requires f.nfc("") == "" && forall i :: 0 <= i < U32_LIMIT ==> f.nfc(LongKey(i)) == LongKey(i)
    ensures var extra := seq(U32_LIMIT, i requires 0 <= i < U32_LIMIT => (LongKey(i), ""));
            ConstructionError(f, Manifest(Core("", "", "", "", ""), extra)) == Some(NativeError)
  {
    var extra := seq(U32_LIMIT, i requires 0 <= i < U32_LIMIT => (LongKey(i), ""));
    var core := Core("", "", "", "", "");
    assert forall i :: 0 <= i < |extra| ==> |f.nfc(extra[i].0)| == i;
    assert Norm(f, "") == [];
    assert forall s :: s in CoreList(core) ==> s == "";
    ConstructionEscapesIff(f, Manifest(core, extra));
  }

  class ModelManifest {
    const lib: Lib
    const core: Core
    var extra: Dict
    var memh: Digest

    ghost function Fields(): Manifest
      reads this, extra
    {
      Manifest(core, extra.items)
    }

    /** The cached fingerprint is the one a fresh computation would give. */
    ghost predicate Valid()
      reads this, extra
    {
      extra.Valid() && Accepted(lib, Fields()) && memh == Fingerprint(lib, Fields())
    }

    /** The generated initialiser: `extra` is still the caller's own mapping. */
    constructor (lib: Lib, core: Core, extra: Dict)
      ensures this.lib == lib && this.core == core && this.extra == extra
    {
      this.lib := lib;
      this.core := core;
      this.extra := extra;
      this.memh := Zeros(32);
    }

    /** The collision check: one pass over the keys with a set of those seen. */
    method KeysCollide() returns (collide: bool)
      ensures collide <==> !DistinctNfc(lib, extra.items)
    {
      var items := extra.items;
      var seen: set<string> := {};
      for i := 0 to |items|
        invariant forall k :: k in seen <==> exists j :: 0 <= j < i && lib.nfc(items[j].0) == k
        invariant DistinctNfc(lib, items[..i])
      {
        var key := lib.nfc(items[i].0);
        if key in seen {
          return true;
        }
        seen := seen + {key};
      }
      assert items[..|items|] == items;
      return false;
    }

    /** `canonical_bytes`, from the object's present fields. */
    method CanonicalBytes() returns (r: Result<Bytes>)
      ensures r == CanonicalOutcome(lib, Fields())
    {
      r := Canonical.CanonicalBytes(lib, Manifest(core, extra.items));
    }

    /** `__post_init__`: check, take a private copy of the mapping, compute the fingerprint. */
    method PostInit() returns (error: Option<Error>)
      requires extra.Valid()
      modifies this
      ensures error == ConstructionError(lib, old(Fields()))
      ensures error.None? ==> Valid() && fresh(extra) && Fields() == old(Fields())
    {
      var collide := KeysCollide();
      if collide {
        return Some(SceError);
      }
      extra := extra.Copy();
      var bytes := CanonicalBytes();
      if bytes.Err? {
        return Some(bytes.error);
      }
      memh := lib.sha3(bytes.value);
      return None;
    }

    /** `ModelManifest(...)`. */
    static method Construct(lib: Lib, core: Core, extra: Dict) returns (r: Result<ModelManifest>)
      requires extra.Valid()
      ensures var error := ConstructionError(lib, Manifest(core, extra.items));
              if error.Some? then r == Err(error.value)
              else r.Ok? && fresh(r.value) && fresh(r.value.extra) && r.value.Valid()
                   && r.value.lib == lib && r.value.Fields() == Manifest(core, extra.items)
    {
      var m := new ModelManifest(lib, core, extra);
      var error := m.PostInit();
      if error.Some? {
        return Err(error.value);
      }
      return Ok(m);
    }

    method Memh() returns (d: Digest)
      requires Valid()
      ensures d == Fingerprint(lib, Fields())
    {
      d := memh;
    }

    /** `__reduce__` and the call it describes: a rebuilt object, never refused, with the same fields. */
    method Rebuild() returns (m: ModelManifest)
      requires Valid()
      ensures fresh(m) && fresh(m.extra) && m.Valid() && m.lib == lib && m.Fields() == Fields()
    {
      var copy := extra.Copy();
      var r := Construct(lib, core, copy);
      m := r.value;
    }
  }

  /** What a program does around its manifests: change the mapping it builds them from, build one more, ask any of
    * them, or rebuild any of them as one more. */
  datatype Action =
    | Put(key: string, value: string)
    | Remove(key: string)
    | Build(core: Core)
    | Ask(index: nat)
    | Rebuild(index: nat)

  /** A program's mapping, the fields each of its manifests was built with, and the answers so far. */
  datatype Program = Program(items: seq<Entry>, built: seq<Manifest>, answers: seq<Digest>)

  /** One action, with every answer computed afresh from the fields at construction; a refused build adds nothing. */
  function Step(f: Lib, s: Program, a: Action): Program {
    match a
    case Put(key, value) => s.(items := PutItem(s.items, key, value))
    case Remove(key) => s.(items := RemoveItem(s.items, key))
    case Build(core) =>
      if ConstructionError(f, Manifest(core, s.items)).Some? then s
      else s.(built := s.built + [Manifest(core, s.items)])
    case Ask(index) =>
      if index >= |s.built| then s else s.(answers := s.answers + [Fingerprint(f, s.built[index])])
    case Rebuild(index) =>
      if index >= |s.built| then s else s.(built := s.built + [s.built[index]])
  }

  /** The program after its first `n` actions. */
  function After(f: Lib, items: seq<Entry>, actions: seq<Action>, n: nat): Program
    requires n <= |actions|
  {
    if n == 0 then Program(items, [], []) else Step(f, After(f, items, actions, n - 1), actions[n - 1])
  }

  /** Which mapping is asked about: changing it touches no manifest, a build takes its items as they are then, a rebuild
    * takes the fields of the manifest rebuilt, and an answer is the hash of that manifest's canonical bytes. */
  lemma ActionRecorded(f: Lib, items: seq<Entry>, actions: seq<Action>, i: nat)
    requires i < |actions|
    ensures After(f, items, actions, 0) == Program(items, [], [])
    ensures var s, t, a := After(f, items, actions, i), After(f, items, actions, i + 1), actions[i];
            && (a.Put? && DistinctKeys(s.items) ==>
                 forall e :: e in t.items <==> e == (a.key, a.value) || (e in s.items && e.0 != a.key))
            && (a.Remove? && DistinctKeys(s.items) ==> forall e :: e in t.items <==> e in s.items && e.0 != a.key)
            && (!a.Put? && !a.Remove? ==> t.items == s.items)
    ensures var s, t, a := After(f, items, actions, i), After(f, items, actions, i + 1), actions[i];
            && (a.Build? && ConstructionError(f, Manifest(a.core, s.items)).None? ==>
                 t.built == s.built + [Manifest(a.core, s.items)])
            && (a.Rebuild? && a.index < |s.built| ==> t.built == s.built + [s.built[a.index]])
            && (a.Build? && ConstructionError(f, Manifest(a.core, s.items)).Some? ==> t.built == s.built)
            && (a.Rebuild? && a.index >= |s.built| ==> t.built == s.built)
            && (!a.Build? && !a.Rebuild? ==> t.built == s.built)
    ensures var s, t, a := After(f, items, actions, i), After(f, items, actions, i + 1), actions[i];
            && (a.Ask? && a.index < |s.built| ==>
                 t.answers == s.answers + [f.sha3(CanonicalForm(f, s.built[a.index]))])
            && (!(a.Ask? && a.index < |s.built|) ==> t.answers == s.answers)
  {
    var s := After(f, items, actions, i);
    assert After(f, items, actions, i + 1) == Step(f, s, actions[i]);
    if DistinctKeys(s.items) {
      if actions[i].Put? {
        PutItemHolds(s.items, actions[i].key, actions[i].value);
      }
      if actions[i].Remove? {
        RemoveItemHolds(s.items, actions[i].key);
      }
    }
  }

  lemma BuiltBy(f: Lib, s: Program, a: Action, k: nat)
    requires k < |Step(f, s, a).built|
    ensures var x := Step(f, s, a).built[k];
            if k < |s.built| then x == s.built[k]
            else if a.Build? then x == Manifest(a.core, s.items) && Accepted(f, x)
            else a.Rebuild? && a.index < |s.built| && x == s.built[a.index]
  {
  }

  /** `m` has the core fields that action `j` builds with and the mapping's items at that moment. */
  predicate BuiltAt(f: Lib, items: seq<Entry>, actions: seq<Action>, j: nat, m: Manifest) {
    j < |actions| && actions[j].Build? && m == Manifest(actions[j].core, After(f, items, actions, j).items)
  }

  /** Every manifest of a program has the core fields of some build and the mapping's items at that moment, whatever was
    * done to the mapping since and through however many rebuilds. */
  lemma {:induction false} BuiltWhen(f: Lib, items: seq<Entry>, actions: seq<Action>, n: nat, k: nat) returns (j: nat)
    requires n <= |actions| && k < |After(f, items, actions, n).built|
    ensures j < n && BuiltAt(f, items, actions, j, After(f, items, actions, n).built[k])
    ensures Accepted(f, After(f, items, actions, n).built[k])
  {
    var s, a := After(f, items, actions, n - 1), actions[n - 1];
    BuiltBy(f, s, a, k);
    if k < |s.built| || a.Rebuild? {
      var i := if k < |s.built| then k else a.index;
      j := BuiltWhen(f, items, actions, n - 1, i);
      assert After(f, items, actions, n).built[k] == s.built[i];
    } else {
      j := n - 1;
    }
  }

  /** The objects are sound, hold just these fields, and none of them shares the program's mapping. */
  ghost predicate Hold(f: Lib, d: Dict, ms: seq<ModelManifest>, built: seq<Manifest>)
    reads set m | m in ms, set m | m in ms :: m.extra
  {
    && |ms| == |built|
    && forall k :: 0 <= k < |ms| ==>
         ms[k].Valid() && ms[k].extra != d && ms[k].lib == f && ms[k].Fields() == built[k]
  }

  lemma HoldOneMore(f: Lib, d: Dict, ms: seq<ModelManifest>, built: seq<Manifest>, m: ModelManifest)
    requires Hold(f, d, ms, built) && m.Valid() && m.extra != d && m.lib == f
    ensures Hold(f, d, ms + [m], built + [m.Fields()])
  {
  }

  method Built(f: Lib, d: Dict, ms: seq<ModelManifest>, core: Core, ghost built: seq<Manifest>)
    returns (after: seq<ModelManifest>)
    requires d.Valid() && Hold(f, d, ms, built)
    ensures var m := Manifest(core, d.items);
            Hold(f, d, after, if ConstructionError(f, m).Some? then built else built + [m])
  {
    after := ms;
    var r := ModelManifest.Construct(f, core, d);
    if r.Ok? {
      HoldOneMore(f, d, ms, built, r.value);
      after := ms + [r.value];
    }
  }

  method Rebuilt(f: Lib, d: Dict, ms: seq<ModelManifest>, index: nat, ghost built: seq<Manifest>)
    returns (after: seq<ModelManifest>)
    requires Hold(f, d, ms, built) && index < |ms|
    ensures Hold(f, d, after, built + [built[index]])
  {
    var m := ms[index].Rebuild();
    HoldOneMore(f, d, ms, built, m);
    after := ms + [m];
  }

  /** One action on the objects. */
  method Perform(f: Lib, d: Dict, ms: seq<ModelManifest>, a: Action, ghost s: Program)
    returns (after: seq<ModelManifest>, answers: seq<Digest>)
    requires d.Valid() && d.items == s.items && Hold(f, d, ms, s.built)
    modifies d
    ensures d.Valid() && d.items == Step(f, s, a).items && Hold(f, d, after, Step(f, s, a).built)
    ensures s.answers + answers == Step(f, s, a).answers
  {
    after, answers := ms, [];
    match a
    case Put(key, value) =>
      d.Put(key, value);
    case Remove(key) =>
      d.Remove(key);
    case Build(core) =>
      after := Built(f, d, ms, core, s.built);
    case Ask(index) =>
      if index < |ms| {
        var answer := ms[index].Memh();
        answers := [answer];
      }
    case Rebuild(index) =>
      if index < |ms| {
        after := Rebuilt(f, d, ms, index, s.built);
      }
  }

  /** Over every program, each manifest's cached fingerprint stays what recomputation would give, whatever the program
    * does to the mapping it passed in and however many manifests it builds and rebuilds meanwhile. */
  method RunProgram(f: Lib, d: Dict, actions: seq<Action>) returns (answers: seq<Digest>, ms: seq<ModelManifest>)
    requires d.Valid()
    modifies d
    ensures var end := After(f, old(d.items), actions, |actions|);
            answers == end.answers && d.items == end.items && Hold(f, d, ms, end.built)
  {
    answers, ms := [], [];
    ghost var s := Program(d.items, [], []);
    for i := 0 to |actions|
      invariant s == After(f, old(d.items), actions, i)
      invariant d.Valid() && d.items == s.items && Hold(f, d, ms, s.built) && answers == s.answers
    {
      var more;
      ms, more := Perform(f, d, ms, actions[i], s);
      answers := answers + more;
      s := Step(f, s, actions[i]);
    }
  }

  /** Manifests with equal fields, extras compared as mappings, have equal fingerprints and so equal hashes. */
  lemma EqualFieldsEqualFingerprint(f: Lib, m1: Manifest, m2: Manifest)
    requires Accepted(f, m1) && Accepted(f, m2)
    requires m1.core == m2.core && forall e :: e in m1.extra <==> e in m2.extra
    ensures Fingerprint(f, m1) == Fingerprint(f, m2)
  {
    OrderIndependent(f, m1.core, m1.extra, m2.extra);
  }
}
