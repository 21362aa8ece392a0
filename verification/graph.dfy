/** The object graph that property paths are resolved against, and the two
    reflection-based lookups of `EditorUtils`: a member by name, and the N-th element
    of a member that is a collection. */
module ObjectGraph {
  import opened Results
  import opened Text

  /** A runtime type, by name. */
  type TypeId = string

  /** A member found by reflection: the type that declares it and its declared name. */
  datatype MemberKey = FieldOf(owner: TypeId, name: string) | PropertyOf(owner: TypeId, name: string)

  /** A runtime value. A non-null object has a runtime type, the current value of its
      members (a member without an entry holds `null`; a property's entry is what its
      getter returns), and, when it implements `IEnumerable`, the elements its
      enumerator yields, in order. */
  datatype Value =
    | Null
    | Obj(ty: TypeId, members: map<MemberKey, Value>, elements: Option<seq<Value>>)

  /** What reflection reports about one type: its base types, nearest first, and the
      instance fields and properties (public or not) found at this level. */
  datatype TypeInfo = TypeInfo(ancestors: seq<TypeId>, fields: seq<string>, properties: seq<string>)

  type TypeTable = map<TypeId, TypeInfo>

  /** The runtime type of a value; `null` has none. */
  function RuntimeType(v: Value): Option<TypeId>
  {
    if v.Null? then None else Some(v.ty)
  }

  /** The levels a member lookup visits: the runtime type, then each base type in turn. */
  function Levels(tt: TypeTable, t: TypeId): (ls: seq<TypeId>)
    ensures |ls| >= 1 && ls[0] == t
  {
    if t in tt then [t] + tt[t].ancestors else [t]
  }

  function FieldsAt(tt: TypeTable, level: TypeId): seq<string>
  {
    if level in tt then tt[level].fields else []
  }

  function PropertiesAt(tt: TypeTable, level: TypeId): seq<string>
  {
    if level in tt then tt[level].properties else []
  }

  /** `GetProperty(name, IgnoreCase)` at one level: the declared property whose name
      equals `name` up to case; of several such, the first declared. */
  function FindProperty(props: seq<string>, name: string): (r: Option<string>)
    ensures r.Some? ==> r.value in props && EqualsIgnoreCase(r.value, name)
    ensures r.Some? ==> exists i :: 0 <= i < |props| && props[i] == r.value
                                    && forall j :: 0 <= j < i ==> !EqualsIgnoreCase(props[j], name)
    ensures r.None? <==> forall i :: 0 <= i < |props| ==> !EqualsIgnoreCase(props[i], name)
  {
    if |props| == 0 then None
    else if EqualsIgnoreCase(props[0], name) then Some(props[0])
    else
      var r := FindProperty(props[1..], name);
      assert forall i :: 1 <= i < |props| ==> props[i] == props[1..][i - 1];
      r
  }

  /** No two properties of a level differ only in case. */
  predicate CaseDistinct(props: seq<string>)
  {
    forall i, j :: 0 <= i < j < |props| ==> !EqualsIgnoreCase(props[i], props[j])
  }

  /** On a level whose property names are distinct up to case, the property found is the
      only one matching the name. */
  lemma FindPropertyIsOnlyMatch(props: seq<string>, name: string)
    requires CaseDistinct(props)
    ensures FindProperty(props, name).Some? ==>
              forall i :: 0 <= i < |props| && EqualsIgnoreCase(props[i], name) ==> props[i] == FindProperty(props, name).value
  {
    var r := FindProperty(props, name);
    if r.Some? {
      var k :| 0 <= k < |props| && props[k] == r.value && forall j :: 0 <= j < k ==> !EqualsIgnoreCase(props[j], name);
      forall i | 0 <= i < |props| && EqualsIgnoreCase(props[i], name) ensures props[i] == r.value {
        assert EqualsIgnoreCase(props[k], props[i]);
      }
    }
  }

  /** One level of the lookup: a field of exactly this name is tried first, then a
      property whose name matches ignoring case. */
  function MemberAt(tt: TypeTable, level: TypeId, name: string): (r: Option<MemberKey>)
    ensures name in FieldsAt(tt, level) ==> r == Some(FieldOf(level, name))
    ensures r.Some? && name !in FieldsAt(tt, level) ==> r.value.PropertyOf?
    ensures r.Some? && r.value.FieldOf? ==> name in FieldsAt(tt, level) && r.value == FieldOf(level, name)
    ensures r.Some? && r.value.PropertyOf? ==>
              name !in FieldsAt(tt, level) && r.value.owner == level
              && r.value.name in PropertiesAt(tt, level) && EqualsIgnoreCase(r.value.name, name)
    ensures r.None? <==>
              name !in FieldsAt(tt, level)
              && forall i :: 0 <= i < |PropertiesAt(tt, level)| ==> !EqualsIgnoreCase(PropertiesAt(tt, level)[i], name)
  {
    if name in FieldsAt(tt, level) then Some(FieldOf(level, name))
    else
      match FindProperty(PropertiesAt(tt, level), name)
      case Some(p) => Some(PropertyOf(level, p))
      case None => None
  }

  /** The walk up the base-type chain: the first level that has the member decides. */
  function FindMember(tt: TypeTable, levels: seq<TypeId>, name: string): Option<MemberKey>
  {
    if |levels| == 0 then None
    else
      match MemberAt(tt, levels[0], name)
      case Some(k) => Some(k)
      case None => FindMember(tt, levels[1..], name)
  }

  /** The member found is the one at the first level that has a member of that name;
      no level has one exactly when nothing is found. */
  lemma {:induction false} FindMemberIsFirstMatch(tt: TypeTable, levels: seq<TypeId>, name: string)
    ensures FindMember(tt, levels, name).None? <==>
              forall i :: 0 <= i < |levels| ==> MemberAt(tt, levels[i], name).None?
    ensures FindMember(tt, levels, name).Some? ==>
              exists i :: 0 <= i < |levels| && MemberAt(tt, levels[i], name) == FindMember(tt, levels, name)
                          && forall j :: 0 <= j < i ==> MemberAt(tt, levels[j], name).None?
  {
    if |levels| > 0 {
      FindMemberIsFirstMatch(tt, levels[1..], name);
      FindMemberStep(tt, levels, name);
    }
  }

  /** One level more: the first level decides, or the rest of the chain does. */
  lemma FindMemberStep(tt: TypeTable, levels: seq<TypeId>, name: string)
    requires |levels| > 0
    requires FindMember(tt, levels[1..], name).None? <==>
               forall i :: 0 <= i < |levels[1..]| ==> MemberAt(tt, levels[1..][i], name).None?
    requires FindMember(tt, levels[1..], name).Some? ==>
               exists i :: 0 <= i < |levels[1..]| && MemberAt(tt, levels[1..][i], name) == FindMember(tt, levels[1..], name)
                           && forall j :: 0 <= j < i ==> MemberAt(tt, levels[1..][j], name).None?
    ensures FindMember(tt, levels, name).None? <==>
              forall i :: 0 <= i < |levels| ==> MemberAt(tt, levels[i], name).None?
    ensures FindMember(tt, levels, name).Some? ==>
              exists i :: 0 <= i < |levels| && MemberAt(tt, levels[i], name) == FindMember(tt, levels, name)
                          && forall j :: 0 <= j < i ==> MemberAt(tt, levels[j], name).None?
  {
    var rest := levels[1..];
    assert forall i :: 1 <= i < |levels| ==> levels[i] == rest[i - 1];
    if MemberAt(tt, levels[0], name).None? && FindMember(tt, levels, name).Some? {
      var i :| 0 <= i < |rest| && MemberAt(tt, rest[i], name) == FindMember(tt, levels, name)
               && forall j :: 0 <= j < i ==> MemberAt(tt, rest[j], name).None?;
      assert MemberAt(tt, levels[i + 1], name) == FindMember(tt, levels, name);
      assert forall j :: 0 <= j < i + 1 ==> MemberAt(tt, levels[j], name).None? by {
        forall j | 0 <= j < i + 1 ensures MemberAt(tt, levels[j], name).None? {
          if j > 0 { assert levels[j] == rest[j - 1]; }
        }
      }
    }
  }

  /** Reading a member of an object: a member without an entry holds `null`. */
  function Read(o: Value, k: MemberKey): Value
    requires o.Obj?
  {
    if k in o.members then o.members[k] else Null
  }

  /** `GetValue_Imp(source, name)`: `null` for a `null` source or a missing member,
      otherwise the value of the member the lookup finds. */
  function GetValue(tt: TypeTable, source: Value, name: string): Value
  {
    if source.Null? then Null
    else
      match FindMember(tt, Levels(tt, source.ty), name)
      case None => Null
      case Some(k) => Read(source, k)
  }

  /** The result of a member lookup on an object is the value of the member found at
      the first level of its base-type chain that declares the name, and `null` when no
      level does. */
  lemma GetValueReadsFirstLevel(tt: TypeTable, source: Value, name: string)
    requires source.Obj?
    ensures (forall i :: 0 <= i < |Levels(tt, source.ty)| ==> MemberAt(tt, Levels(tt, source.ty)[i], name).None?)
            ==> GetValue(tt, source, name) == Null
    ensures forall i :: 0 <= i < |Levels(tt, source.ty)| && MemberAt(tt, Levels(tt, source.ty)[i], name).Some?
                        && (forall j :: 0 <= j < i ==> MemberAt(tt, Levels(tt, source.ty)[j], name).None?)
                        ==> GetValue(tt, source, name) == Read(source, MemberAt(tt, Levels(tt, source.ty)[i], name).value)
  {
    var ls := Levels(tt, source.ty);
    FindMemberIsFirstMatch(tt, ls, name);
    forall i | 0 <= i < |ls| && MemberAt(tt, ls[i], name).Some?
               && (forall j :: 0 <= j < i ==> MemberAt(tt, ls[j], name).None?)
      ensures GetValue(tt, source, name) == Read(source, MemberAt(tt, ls[i], name).value)
    {
      var i' :| 0 <= i' < |ls| && MemberAt(tt, ls[i'], name) == FindMember(tt, ls, name)
                && forall j :: 0 <= j < i' ==> MemberAt(tt, ls[j], name).None?;
      assert i' == i;
    }
  }

  /** Property names match ignoring case: two names that differ only in case find the
      same member at a level that has no field of either name. */
  lemma PropertyLookupIgnoresCase(tt: TypeTable, level: TypeId, a: string, b: string)
    requires EqualsIgnoreCase(a, b)
    requires a !in FieldsAt(tt, level) && b !in FieldsAt(tt, level)
    ensures MemberAt(tt, level, a) == MemberAt(tt, level, b)
  {
    FindPropertyIgnoresCase(PropertiesAt(tt, level), a, b);
  }

  lemma {:induction false} FindPropertyIgnoresCase(props: seq<string>, a: string, b: string)
    requires EqualsIgnoreCase(a, b)
    ensures FindProperty(props, a) == FindProperty(props, b)
  {
    if |props| > 0 {
      FindPropertyIgnoresCase(props[1..], a, b);
    }
  }

  /** Field names match exactly: a field `Count` is not found under the name `count`,
      while a property `Count` is. */
  lemma FieldLookupIsCaseSensitive()
    ensures var tt := map["Bag" := TypeInfo([], ["Count"], [])];
            var bag := Obj("Bag", map[FieldOf("Bag", "Count") := Obj("Int", map[], None)], None);
            GetValue(tt, bag, "count") == Null && GetValue(tt, bag, "Count") == Obj("Int", map[], None)
    ensures var tt := map["Bag" := TypeInfo([], [], ["Count"])];
            var bag := Obj("Bag", map[PropertyOf("Bag", "Count") := Obj("Int", map[], None)], None);
            GetValue(tt, bag, "count") == Obj("Int", map[], None)
  {
    var tt := map["Bag" := TypeInfo([], ["Count"], [])];
    assert "count" != "Count" by { assert "count"[0] != "Count"[0]; }
    assert Levels(tt, "Bag") == ["Bag"];
    var tt2 := map["Bag" := TypeInfo([], [], ["Count"])];
    assert Levels(tt2, "Bag") == ["Bag"];
    assert EqualsIgnoreCase("Count", "count") by {
      assert Lower("Count") == Lower("count");
    }
  }

  /** `GetValue_Imp(source, name, index)` as a reference: the member's value seen as a
      collection, element `index` of it when there is one, and `null` otherwise. */
  function GetElement(tt: TypeTable, source: Value, name: string, index: nat): Value
  {
    var c := GetValue(tt, source, name);
    if c.Null? || c.elements.None? then Null
    else if index < |c.elements.value| then c.elements.value[index]
    else Null
  }

  /** The enumerator protocol of `GetValue_Imp(source, name, index)`: `MoveNext` is
      called `index + 1` times, giving up with `null` when it returns false, and the
      enumerator's current element is returned. */
  method Enumerate(items: seq<Value>, index: nat) returns (r: Value)
    ensures index < |items| ==> r == items[index]
    ensures |items| <= index ==> r == Null
  {
    var current := -1;  // the enumerator starts before the first element
    var i := 0;
    while i <= index
      invariant 0 <= i <= index + 1
      invariant current == i - 1
      invariant current < |items|
    {
      if current + 1 >= |items| {
        return Null;
      }
      current := current + 1;
      i := i + 1;
    }
    r := items[current];
  }

  /** `GetValue_Imp(source, name, index)`: a member that is missing, `null` or not a
      collection gives `null`; otherwise the element at `index`, or `null` past the end. */
  method GetValueIndexed(tt: TypeTable, source: Value, name: string, index: nat) returns (r: Value)
    ensures r == GetElement(tt, source, name, index)
  {
    var enumerable := GetValue(tt, source, name);
    if enumerable.Null? || enumerable.elements.None? {
      return Null;
    }
    r := Enumerate(enumerable.elements.value, index);
  }
}
