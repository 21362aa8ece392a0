/** `PolymorphicPropertyManager.Init`: the scan of all loaded types that builds, for each
    root type, the editors available under each key. Reflection is replaced by one
    descriptor per type. */
module EditorRegistry {
  import opened Results
  import opened ObjectGraph
  import opened PropertyEditors

  /** A `PolymorphicPropertyEditorAttribute`: the root type it files the type under, its
      label (the key of its entry, `None` for a null label) and its documentation link. */
  datatype Marker = Marker(root: TypeId, key: Option<string>, docUrl: Option<string>)

  /** An instance field as `GetFields` reports it. */
  datatype FieldDesc = FieldDesc(name: string, isPublic: bool, serializeField: bool)

  /** What the scan learns about one type: its marker, whether it has a parameterless
      constructor, whether it implements `IPolymorphicPropertyEditor`, whether its marker's
      root type is assignable from it, its instance fields, and the instance its
      parameterless constructor returns. */
  datatype TypeDesc = TypeDesc(
    id: TypeId,
    marker: Option<Marker>,
    hasDefaultCtor: bool,
    isEditor: bool,
    assignableToRoot: bool,
    fields: seq<FieldDesc>,
    instance: Value)

  /** A hand-written editor (an instance of the marked type itself) or a generated one. */
  datatype Editor = HandWritten(ty: TypeId) | Auto(auto: PropertyEditor)

  datatype EditorInfo = EditorInfo(editor: Editor, docUrl: Option<string>)

  datatype Entry = Entry(key: string, info: EditorInfo)

  /** The editors of one root type by key, in the dictionary's enumeration order. */
  type Partition = seq<Entry>

  /** The registry: a partition per root type. */
  type Editors = map<TypeId, Partition>

  /** The exceptions the scan throws. */
  datatype ConfigError =
    | NoDefaultConstructor(ty: TypeId)
    | NotEditorNorRoot(ty: TypeId, root: TypeId)
    | NullLabel(ty: TypeId)

  /** The registry as the scan left it, and the exception that ended it early, if any. */
  datatype Scan = Scan(editors: Editors, error: Option<ConfigError>)

  /** ---- Generated editors ---- */

  predicate Serializable(f: FieldDesc)
  {
    f.isPublic || f.serializeField
  }

  /** The names of the fields a generated editor lists: the public ones and those
      marked `[SerializeField]`, in declaration order. */
  function SerializableNames(fields: seq<FieldDesc>): (names: seq<string>)
    ensures |names| <= |fields|
    ensures forall n :: n in names <==> exists f :: f in fields && Serializable(f) && f.name == n
    decreases |fields|
  {
    if |fields| == 0 then []
    else
      var rest := SerializableNames(fields[1..]);
      assert forall f :: f in fields[1..] ==> f in fields;
      assert forall f :: f in fields ==> f == fields[0] || f in fields[1..];
      if Serializable(fields[0]) then [fields[0].name] + rest else rest
  }

  lemma {:induction false} SerializableNamesConcat(a: seq<FieldDesc>, b: seq<FieldDesc>)
    ensures SerializableNames(a + b) == SerializableNames(a) + SerializableNames(b)
    decreases |a|
  {
    if |a| > 0 {
      assert (a + b)[1..] == a[1..] + b;
      SerializableNamesConcat(a[1..], b);
    } else {
      assert a + b == b;
    }
  }

  /** `CreateAutoEditor`: an editor for exactly the type, built with its parameterless
      constructor, listing its serializable fields. */
  function CreateAutoEditor(t: TypeDesc): (ed: PropertyEditor)
    ensures ed.propertyType == t.id && ed.made == t.instance
    ensures ed.displayProps == Some(SerializableNames(t.fields))
  {
    PropertyEditor(t.id, t.instance, Some(SerializableNames(t.fields)))
  }

  /** ---- Partitions ---- */

  function Keys(p: Partition): (ks: seq<string>)
    ensures |ks| == |p|
    ensures forall i :: 0 <= i < |p| ==> ks[i] == p[i].key
  {
    seq(|p|, i requires 0 <= i < |p| => p[i].key)
  }

  predicate UniqueKeys(p: Partition)
  {
    forall i, j :: 0 <= i < j < |p| ==> p[i].key != p[j].key
  }

  /** `TryGetValue`: the editor filed under `key`. */
  function Lookup(p: Partition, key: string): (r: Option<EditorInfo>)
    ensures r.Some? <==> key in Keys(p)
    decreases |p|
  {
    if |p| == 0 then None
    else if p[0].key == key then Some(p[0].info)
    else
      KeysCons(p);
      Lookup(p[1..], key)
  }

  lemma KeysCons(p: Partition)
    requires |p| > 0
    ensures Keys(p) == [p[0].key] + Keys(p[1..])
  {
  }

  /** The indexer's setter: an existing key keeps its place and takes the new editor;
      a new key is added at the end. */
  function Put(p: Partition, key: string, info: EditorInfo): (r: Partition)
    ensures |r| == |p| || |r| == |p| + 1
    decreases |p|
  {
    if |p| == 0 then [Entry(key, info)]
    else if p[0].key == key then [Entry(key, info)] + p[1..]
    else [p[0]] + Put(p[1..], key, info)
  }

  /** After `Put`, the key finds the new editor and every other key what it found before. */
  lemma {:induction false} PutLookup(p: Partition, key: string, info: EditorInfo, other: string)
    ensures Lookup(Put(p, key, info), other) == if other == key then Some(info) else Lookup(p, other)
    decreases |p|
  {
    if |p| > 0 {
      var r := Put(p, key, info);
      if p[0].key == key {
        assert r[1..] == p[1..];
      } else {
        assert r[1..] == Put(p[1..], key, info);
        PutLookup(p[1..], key, info, other);
      }
    }
  }

  /** `Put` keeps the order of the keys and appends a new one. */
  lemma {:induction false} PutKeys(p: Partition, key: string, info: EditorInfo)
    ensures Keys(Put(p, key, info)) == if key in Keys(p) then Keys(p) else Keys(p) + [key]
    decreases |p|
  {
    if |p| > 0 {
      var r := Put(p, key, info);
      KeysCons(p);
      KeysCons(r);
      if p[0].key == key {
        assert r[1..] == p[1..];
      } else {
        assert r[1..] == Put(p[1..], key, info);
        PutKeys(p[1..], key, info);
      }
    }
  }

  /** `Put` never files a key twice. */
  lemma PutKeepsUnique(p: Partition, key: string, info: EditorInfo)
    requires UniqueKeys(p)
    ensures UniqueKeys(Put(p, key, info))
  {
    PutKeys(p, key, info);
    var ks := Keys(Put(p, key, info));
    assert forall i :: 0 <= i < |Put(p, key, info)| ==> Put(p, key, info)[i].key == ks[i];
  }

  /** ---- The scan ---- */

  /** The registry with a partition for `root`, a new empty one if there was none. */
  function WithPartition(editors: Editors, root: TypeId): (r: Editors)
    ensures r.Keys == editors.Keys + {root}
    ensures root !in editors ==> r[root] == []
    ensures forall t :: t in editors ==> r[t] == editors[t]
  {
    if root in editors then editors else editors[root := []]
  }

  /** One iteration of the scan: an unmarked type is skipped; for a marked one the root's
      partition is created, then the parameterless constructor is required, then a
      hand-written editor is registered, else a generated one if the root type is
      assignable from the type, else the type is rejected. Registering under a null key
      throws. */
  function Register(editors: Editors, t: TypeDesc): Scan
  {
    match t.marker
    case None => Scan(editors, None)
    case Some(m) =>
      var l := WithPartition(editors, m.root);
      if !t.hasDefaultCtor then Scan(l, Some(NoDefaultConstructor(t.id)))
      else if t.isEditor then
        match m.key
        case None => Scan(l, Some(NullLabel(t.id)))
        case Some(key) => Scan(l[m.root := Put(l[m.root], key, EditorInfo(HandWritten(t.id), m.docUrl))], None)
      else if t.assignableToRoot then
        match m.key
        case None => Scan(l, Some(NullLabel(t.id)))
        case Some(key) => Scan(l[m.root := Put(l[m.root], key, EditorInfo(Auto(CreateAutoEditor(t)), m.docUrl))], None)
      else Scan(l, Some(NotEditorNorRoot(t.id, m.root)))
  }

  /** The scan over `types` in order, stopping at the first exception. */
  function Build(types: seq<TypeDesc>): Scan
    decreases |types|
  {
    if |types| == 0 then Scan(map[], None)
    else
      var s := Build(types[..|types| - 1]);
      if s.error.Some? then s else Register(s.editors, types[|types| - 1])
  }

  /** `Init`: a registry already cached is returned as it is (even one a failed scan left
      behind); otherwise the types are scanned. The result is what the cache holds
      afterwards. */
  function Init(cache: Option<Editors>, types: seq<TypeDesc>): (s: Scan)
    ensures cache.Some? ==> s == Scan(cache.value, None)
    ensures cache.None? ==> s == Build(types)
  {
    match cache
    case Some(c) => Scan(c, None)
    case None => Build(types)
  }

  /** The scan as a loop that stops at the first exception. */
  method RunScan(types: seq<TypeDesc>) returns (s: Scan)
    ensures s == Build(types)
  {
    s := Scan(map[], None);
    var i := 0;
    while i < |types|
      invariant 0 <= i <= |types|
      invariant s == Build(types[..i])
      invariant s.error.Some? ==> s == Build(types)
      invariant s.error.None? || i == |types|
    {
      assert types[..i + 1][..i] == types[..i];
      s := Register(s.editors, types[i]);
      i := i + 1;
      if s.error.Some? {
        ErrorSticks(types, i);
        i := |types|;
        assert types[..i] == types;
      }
    }
    assert types[..i] == types;
  }

  /** ---- What the scan builds ---- */

  /** A type the scan accepts: unmarked, or marked with a key, a parameterless
      constructor, and either the editor interface or the root type. */
  predicate Valid(t: TypeDesc)
  {
    t.marker.Some? ==> t.hasDefaultCtor && (t.isEditor || t.assignableToRoot) && t.marker.value.key.Some?
  }

  /** The exception a rejected type raises. */
  function ErrorOf(t: TypeDesc): ConfigError
    requires t.marker.Some? && !Valid(t)
  {
    if !t.hasDefaultCtor then NoDefaultConstructor(t.id)
    else if t.isEditor || t.assignableToRoot then NullLabel(t.id)
    else NotEditorNorRoot(t.id, t.marker.value.root)
  }

  /** The editor an accepted marked type contributes: hand-written whenever the type is an
      editor, whether or not it is also assignable to the root type. */
  function InfoOf(t: TypeDesc): (info: EditorInfo)
    requires t.marker.Some? && Valid(t)
    ensures info.editor.HandWritten? <==> t.isEditor
    ensures info.editor.Auto? ==> t.assignableToRoot && info.editor.auto == CreateAutoEditor(t)
    ensures info.docUrl == t.marker.value.docUrl
  {
    EditorInfo(if t.isEditor then HandWritten(t.id) else Auto(CreateAutoEditor(t)), t.marker.value.docUrl)
  }

  /** One scan step, read as validation: an accepted type files its editor under its
      key; a rejected one leaves only its root's partition behind. */
  lemma RegisterOutcome(editors: Editors, t: TypeDesc)
    ensures t.marker.None? ==> Register(editors, t) == Scan(editors, None)
    ensures t.marker.Some? ==> (Register(editors, t).error.None? <==> Valid(t))
    ensures t.marker.Some? && !Valid(t) ==>
              Register(editors, t) == Scan(WithPartition(editors, t.marker.value.root), Some(ErrorOf(t)))
    ensures t.marker.Some? && Valid(t) ==>
              var root := t.marker.value.root;
              var l := WithPartition(editors, root);
              Register(editors, t) == Scan(l[root := Put(l[root], t.marker.value.key.value, InfoOf(t))], None)
  {
  }

  /** The checks on a marked type come in a fixed order: a missing parameterless
      constructor is reported whatever the type's shape, a wrong shape whatever its label,
      and a null label only for a type of the right shape. */
  lemma CheckOrder(editors: Editors, t: TypeDesc)
    requires t.marker.Some?
    ensures !t.hasDefaultCtor ==> Register(editors, t).error == Some(NoDefaultConstructor(t.id))
    ensures t.hasDefaultCtor && !t.isEditor && !t.assignableToRoot ==>
              Register(editors, t).error == Some(NotEditorNorRoot(t.id, t.marker.value.root))
    ensures t.hasDefaultCtor && (t.isEditor || t.assignableToRoot) && t.marker.value.key.None? ==>
              Register(editors, t).error == Some(NullLabel(t.id))
  {
  }

  /** Once the scan has thrown, later types change nothing. */
  lemma {:induction false} ErrorSticks(types: seq<TypeDesc>, k: nat)
    requires k <= |types|
    requires Build(types[..k]).error.Some?
    ensures Build(types) == Build(types[..k])
    decreases |types| - k
  {
    if k < |types| {
      assert types[..k + 1][..k] == types[..k];
      ErrorSticks(types, k + 1);
    } else {
      assert types[..k] == types;
    }
  }

  /** The scan succeeds exactly when every type is accepted. */
  lemma {:induction false} BuildSucceedsIffAllValid(types: seq<TypeDesc>)
    ensures Build(types).error.None? <==> forall i :: 0 <= i < |types| ==> Valid(types[i])
    decreases |types|
  {
    if |types| > 0 {
      var n := |types| - 1;
      var prefix := types[..n];
      BuildSucceedsIffAllValid(prefix);
      assert forall i :: 0 <= i < n ==> prefix[i] == types[i];
      RegisterOutcome(Build(prefix).editors, types[n]);
    }
  }

  /** The scan stops at the first rejected type: it throws that type's exception, and the
      registry keeps what the types before it built plus the (possibly new, empty)
      partition of its root. */
  lemma BuildStopsAtFirstInvalid(types: seq<TypeDesc>, k: nat)
    requires k < |types|
    requires forall j :: 0 <= j < k ==> Valid(types[j])
    requires !Valid(types[k])
    ensures Build(types[..k]).error.None?
    ensures Build(types) == Scan(WithPartition(Build(types[..k]).editors, types[k].marker.value.root), Some(ErrorOf(types[k])))
  {
    var prefix := types[..k];
    BuildSucceedsIffAllValid(prefix);
    assert types[..k + 1][..k] == prefix;
    RegisterOutcome(Build(prefix).editors, types[k]);
    ErrorSticks(types, k + 1);
  }

  /** The editor under `key` of root `root`, if any. */
  function Find(editors: Editors, root: TypeId, key: string): Option<EditorInfo>
  {
    if root in editors then Lookup(editors[root], key) else None
  }

  /** The editor of the last accepted marked type filed under `root` and `key`. */
  function LastWriter(types: seq<TypeDesc>, root: TypeId, key: string): (r: Option<EditorInfo>)
    requires forall i :: 0 <= i < |types| ==> Valid(types[i])
    ensures r.Some? ==> exists i :: 0 <= i < |types| && types[i].marker == Some(Marker(root, Some(key), r.value.docUrl))
                                    && r.value == InfoOf(types[i])
    decreases |types|
  {
    if |types| == 0 then None
    else
      var t := types[|types| - 1];
      if t.marker.Some? && t.marker.value.root == root && t.marker.value.key == Some(key) then Some(InfoOf(t))
      else
        var prefix := types[..|types| - 1];
        assert forall i :: 0 <= i < |prefix| ==> prefix[i] == types[i];
        LastWriter(prefix, root, key)
  }

  /** The keys filed under `root`, in scan order, repetitions included. */
  function KeysFor(types: seq<TypeDesc>, root: TypeId): seq<string>
    decreases |types|
  {
    if |types| == 0 then []
    else
      var t := types[|types| - 1];
      KeysFor(types[..|types| - 1], root)
      + (if t.marker.Some? && t.marker.value.root == root && t.marker.value.key.Some?
         then [t.marker.value.key.value] else [])
  }

  /** Each key once, at the place of its first appearance. */
  function Dedup(s: seq<string>): (r: seq<string>)
    ensures forall x :: x in r <==> x in s
    ensures forall i, j :: 0 <= i < j < |r| ==> r[i] != r[j]
    decreases |s|
  {
    if |s| == 0 then []
    else
      var d := Dedup(s[..|s| - 1]);
      assert forall x :: x in s <==> x in s[..|s| - 1] || x == s[|s| - 1] by {
        assert s == s[..|s| - 1] + [s[|s| - 1]];
      }
      if s[|s| - 1] in d then d else d + [s[|s| - 1]]
  }

  /** A successful scan files under `root` and `key` what the last type marked with that
      root and key contributes: later registrations overwrite earlier ones. */
  lemma {:induction false} BuildIsLastWriterWins(types: seq<TypeDesc>, root: TypeId, key: string)
    requires forall i :: 0 <= i < |types| ==> Valid(types[i])
    ensures Find(Build(types).editors, root, key) == LastWriter(types, root, key)
    decreases |types|
  {
    if |types| > 0 {
      var n := |types| - 1;
      var prefix := types[..n];
      var t := types[n];
      assert forall i :: 0 <= i < n ==> prefix[i] == types[i];
      BuildIsLastWriterWins(prefix, root, key);
      BuildSucceedsIffAllValid(prefix);
      RegisterOutcome(Build(prefix).editors, t);
      if t.marker.Some? && t.marker.value.root == root {
        var l := WithPartition(Build(prefix).editors, root);
        PutLookup(l[root], t.marker.value.key.value, InfoOf(t), key);
      }
    }
  }

  /** A successful scan has a partition exactly for the roots some marked type names. */
  lemma {:induction false} BuildRoots(types: seq<TypeDesc>, root: TypeId)
    requires forall i :: 0 <= i < |types| ==> Valid(types[i])
    ensures root in Build(types).editors <==>
              exists i :: 0 <= i < |types| && types[i].marker.Some? && types[i].marker.value.root == root
    decreases |types|
  {
    if |types| > 0 {
      var n := |types| - 1;
      var prefix := types[..n];
      assert forall i :: 0 <= i < n ==> prefix[i] == types[i];
      BuildRoots(prefix, root);
      BuildSucceedsIffAllValid(prefix);
      RegisterOutcome(Build(prefix).editors, types[n]);
    }
  }

  /** A successful scan lists the keys of a root's partition once each, in the order in
      which they first appear among the types marked with that root: the order of the
      picker's choices. */
  lemma {:induction false} BuildKeyOrder(types: seq<TypeDesc>, root: TypeId)
    requires forall i :: 0 <= i < |types| ==> Valid(types[i])
    ensures root in Build(types).editors ==> Keys(Build(types).editors[root]) == Dedup(KeysFor(types, root))
    ensures root !in Build(types).editors ==> KeysFor(types, root) == []
    decreases |types|
  {
    if |types| > 0 {
      var n := |types| - 1;
      var prefix := types[..n];
      var t := types[n];
      assert forall i :: 0 <= i < n ==> prefix[i] == types[i];
      BuildKeyOrder(prefix, root);
      BuildSucceedsIffAllValid(prefix);
      var before := Build(prefix).editors;
      RegisterOutcome(before, t);
      var ks := KeysFor(prefix, root);
      if t.marker.Some? && t.marker.value.root == root {
        var l := WithPartition(before, root);
        var key := t.marker.value.key.value;
        PutKeys(l[root], key, InfoOf(t));
        assert Keys(l[root]) == Dedup(ks);
        assert KeysFor(types, root) == ks + [key];
        assert (ks + [key])[..|ks|] == ks;
      } else {
        assert KeysFor(types, root) == ks + [];
        assert ks + [] == ks;
      }
    }
  }

  /** Every partition, also one a failed scan leaves behind, lists each key once. */
  lemma {:induction false} BuildKeysUnique(types: seq<TypeDesc>, root: TypeId)
    ensures root in Build(types).editors ==> UniqueKeys(Build(types).editors[root])
    decreases |types|
  {
    if |types| > 0 {
      var n := |types| - 1;
      var prefix := types[..n];
      BuildKeysUnique(prefix, root);
      var before := Build(prefix).editors;
      var t := types[n];
      if Build(prefix).error.None? && t.marker.Some? && t.marker.value.root == root {
        var l := WithPartition(before, root);
        var m := t.marker.value;
        if m.key.Some? {
          PutKeepsUnique(l[root], m.key.value, EditorInfo(HandWritten(t.id), m.docUrl));
          PutKeepsUnique(l[root], m.key.value, EditorInfo(Auto(CreateAutoEditor(t)), m.docUrl));
        }
      }
    }
  }

  /** `Init` runs its scan once. After a rejected type it has thrown, but the registry it
      had built so far stays cached: the next call returns that partial registry, with the
      rejected type's root present, and throws nothing. */
  lemma InitAfterFailure(types: seq<TypeDesc>, k: nat)
    requires k < |types|
    requires forall j :: 0 <= j < k ==> Valid(types[j])
    requires !Valid(types[k])
    ensures Init(None, types).error == Some(ErrorOf(types[k]))
    ensures types[k].marker.value.root in Init(None, types).editors
    ensures Init(Some(Init(None, types).editors), types) == Scan(Init(None, types).editors, None)
  {
    BuildStopsAtFirstInvalid(types, k);
  }

  /** Every partition lists each key once. */
  predicate WellFormedRegistry(editors: Editors)
  {
    forall t :: t in editors ==> UniqueKeys(editors[t])
  }

  /** Every generated editor in the registry constructs instances of exactly its type. */
  ghost predicate FaithfulRegistry(editors: Editors)
  {
    forall t, key :: t in editors && Find(editors, t, key).Some? && Find(editors, t, key).value.editor.Auto? ==>
      Faithful(Find(editors, t, key).value.editor.auto)
  }

  /** A descriptor whose parameterless constructor returns an instance of the type itself. */
  predicate ConstructsOwnType(t: TypeDesc)
  {
    RuntimeType(t.instance) == Some(t.id)
  }

  /** Every scan, even one that threw, leaves partitions that list each key once. */
  lemma BuildIsWellFormed(types: seq<TypeDesc>)
    ensures WellFormedRegistry(Build(types).editors)
  {
    forall root | root in Build(types).editors ensures UniqueKeys(Build(types).editors[root]) {
      BuildKeysUnique(types, root);
    }
  }

  /** A successful scan of types that construct their own type only files generated
      editors whose constructor yields exactly the editor's type. */
  lemma BuildIsFaithful(types: seq<TypeDesc>)
    requires forall i :: 0 <= i < |types| ==> Valid(types[i]) && ConstructsOwnType(types[i])
    ensures FaithfulRegistry(Build(types).editors)
  {
    var editors := Build(types).editors;
    forall root, key | root in editors && Find(editors, root, key).Some? && Find(editors, root, key).value.editor.Auto?
      ensures Faithful(Find(editors, root, key).value.editor.auto)
    {
      BuildIsLastWriterWins(types, root, key);
    }
  }
}
