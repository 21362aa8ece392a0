/** A `Shape` hierarchy registered with the picker: generated editors for `Circle` and
    `Square`, then a hand-written `CircleEditor` under the label `Circle` as well. */
module ShapeScenario {
  import opened Results
  import opened ObjectGraph
  import opened PropertyEditors
  import opened EditorRegistry
  import opened Picker

  const CircleInstance: Value := Obj("Circle", map[], None)
  const SquareInstance: Value := Obj("Square", map[], None)

  const CircleFields: seq<FieldDesc> := [FieldDesc("radius", true, false), FieldDesc("cache", false, false)]

  const CircleType: TypeDesc := TypeDesc("Circle", Some(Marker("Shape", Some("Circle"), None)), true, false, true, CircleFields, CircleInstance)
  const SquareType: TypeDesc := TypeDesc("Square", Some(Marker("Shape", Some("Square"), Some("https://example.org/square"))), true, false, true, [], SquareInstance)
  /** A hand-written editor that is also a `Shape`: the editor interface decides. */
  const CircleEditorType: TypeDesc := TypeDesc("CircleEditor", Some(Marker("Shape", Some("Circle"), None)), true, true, true, [], Null)
  const PlainType: TypeDesc := TypeDesc("Plain", None, false, false, false, [], Null)
  /** Marked, but neither an editor nor a `Shape`. */
  const StrayType: TypeDesc := TypeDesc("Stray", Some(Marker("Shape", Some("Stray"), None)), true, false, false, [], Null)

  const ShapeTypes: seq<TypeDesc> := [CircleType, PlainType, SquareType, CircleEditorType]

  /** The `Shape` partition offers `Circle` then `Square`; the later hand-written editor
      replaced the generated one under `Circle` without moving it. */
  lemma ShapeRegistry()
    ensures Build(ShapeTypes).error.None?
    ensures Keys(Build(ShapeTypes).editors["Shape"]) == ["Circle", "Square"]
    ensures Find(Build(ShapeTypes).editors, "Shape", "Circle") == Some(EditorInfo(HandWritten("CircleEditor"), None))
    ensures Find(Build(ShapeTypes).editors, "Shape", "Square")
            == Some(EditorInfo(Auto(PropertyEditor("Square", SquareInstance, Some([]))), Some("https://example.org/square")))
  {
    var ts := ShapeTypes;
    assert forall i :: 0 <= i < |ts| ==> Valid(ts[i]);
    BuildSucceedsIffAllValid(ts);
    BuildRoots(ts, "Shape");
    assert ts[0].marker.value.root == "Shape";
    BuildKeyOrder(ts, "Shape");
    ShapeKeys();
    BuildIsLastWriterWins(ts, "Shape", "Circle");
    BuildIsLastWriterWins(ts, "Shape", "Square");
    ShapeWriters();
  }

  lemma ShapeKeys()
    ensures Dedup(KeysFor(ShapeTypes, "Shape")) == ["Circle", "Square"]
  {
    ShapeKeysFor();
    var ks := ["Circle", "Square", "Circle"];
    assert ks[..2] == ["Circle", "Square"];
    CircleSquareDistinct();
  }

  lemma ShapeKeysFor()
    ensures KeysFor(ShapeTypes, "Shape") == ["Circle", "Square", "Circle"]
  {
    assert ShapeTypes[..3] == [CircleType, PlainType, SquareType];
    ThreeKeysFor();
  }

  lemma ThreeKeysFor()
    ensures KeysFor([CircleType, PlainType, SquareType], "Shape") == ["Circle", "Square"]
  {
    assert [CircleType, PlainType, SquareType][..2] == [CircleType, PlainType];
    TwoKeysFor();
  }

  lemma TwoKeysFor()
    ensures KeysFor([CircleType, PlainType], "Shape") == ["Circle"]
  {
    assert [CircleType, PlainType][..1] == [CircleType];
    assert [CircleType][..0] == [];
    assert KeysFor([], "Shape") == [];
  }

  lemma ShapeWriters()
    ensures LastWriter(ShapeTypes, "Shape", "Circle") == Some(EditorInfo(HandWritten("CircleEditor"), None))
    ensures LastWriter(ShapeTypes, "Shape", "Square")
            == Some(EditorInfo(Auto(PropertyEditor("Square", SquareInstance, Some([]))), Some("https://example.org/square")))
  {
    var ts := ShapeTypes;
    assert ts[..3] == [CircleType, PlainType, SquareType];
    assert SerializableNames([]) == [];
  }

  /** Only the public field of `Circle` is listed by its generated editor. */
  lemma CircleListsPublicFields()
    ensures CreateAutoEditor(CircleType).displayProps == Some(["radius"])
  {
    var rest := [FieldDesc("cache", false, false)];
    assert CircleFields[1..] == rest && rest[1..] == [];
    assert SerializableNames(rest) == [];
    assert SerializableNames(CircleFields) == ["radius"] + [];
    assert ["radius"] + [] == ["radius"];
    assert CircleType.fields == CircleFields;
  }

  /** A stray marked type stops the scan with its exception, after the `Shape` partition
      was made; the next `Init` hands out what was built before it. */
  lemma StrayTypeIsRejected()
    ensures Init(None, [CircleType, StrayType, SquareType]).error == Some(NotEditorNorRoot("Stray", "Shape"))
    ensures Init(Some(Init(None, [CircleType, StrayType, SquareType]).editors), [CircleType, StrayType, SquareType]).error.None?
  {
    var ts := [CircleType, StrayType, SquareType];
    assert Valid(ts[0]) && !Valid(ts[1]);
    InitAfterFailure(ts, 1);
  }

  /** Switching from `Circle` to `Square` replaces the stored circle with a fresh square;
      switching to the hand-written `Circle` editor leaves whatever that editor's drawing
      leaves, and the picker adds nothing of its own. */
  lemma SwitchingEditors(host: Host)
    ensures PopupFits(Build(ShapeTypes).editors, "Shape", Picked(2))
            && PickerAnswer(Build(ShapeTypes).editors, "Shape", CircleInstance, "Circle", Picked(2), host)
               == Slot("Square", SquareInstance)
    ensures PopupFits(Build(ShapeTypes).editors, "Shape", Picked(1))
            && PickerAnswer(Build(ShapeTypes).editors, "Shape", SquareInstance, "Square", Picked(1), host)
               == Slot("Circle", host.customDraw("CircleEditor", SquareInstance))
  {
    ShapeChoices();
    SwitchToSquare(host);
    SwitchToCircleEditor(host);
  }

  /** When `CircleEditor` leaves its drawing to the generated `Circle` editor, as a
      subclass of `PolymorphicPropertyEditor` does, switching to it from `Square`
      replaces the stored square with a fresh circle. */
  lemma SwitchToCircleSubclass(host: Host)
    requires DrawsLike(host, "CircleEditor", CreateAutoEditor(CircleType))
    ensures PopupFits(Build(ShapeTypes).editors, "Shape", Picked(1))
            && PickerAnswer(Build(ShapeTypes).editors, "Shape", SquareInstance, "Square", Picked(1), host)
               == Slot("Circle", CircleInstance)
  {
    SwitchingEditors(host);
  }

  lemma ShapeChoices()
    ensures "Shape" in Build(ShapeTypes).editors
    ensures Choices(Build(ShapeTypes).editors["Shape"]) == ["None", "Circle", "Square"]
  {
    ShapeRegistry();
  }

  lemma SwitchToSquare(host: Host)
    requires "Shape" in Build(ShapeTypes).editors
    requires Choices(Build(ShapeTypes).editors["Shape"]) == ["None", "Circle", "Square"]
    ensures PopupFits(Build(ShapeTypes).editors, "Shape", Picked(2))
            && PickerAnswer(Build(ShapeTypes).editors, "Shape", CircleInstance, "Circle", Picked(2), host)
               == Slot("Square", SquareInstance)
  {
    ShapeRegistry();
  }

  lemma SwitchToCircleEditor(host: Host)
    requires "Shape" in Build(ShapeTypes).editors
    requires Choices(Build(ShapeTypes).editors["Shape"]) == ["None", "Circle", "Square"]
    ensures PopupFits(Build(ShapeTypes).editors, "Shape", Picked(1))
            && PickerAnswer(Build(ShapeTypes).editors, "Shape", SquareInstance, "Square", Picked(1), host)
               == Slot("Circle", host.customDraw("CircleEditor", SquareInstance))
  {
    ShapeRegistry();
  }

  const TwoShapes: seq<TypeDesc> := [CircleType, SquareType]

  lemma TwoShapesRegistry()
    ensures "Shape" in Build(TwoShapes).editors
    ensures Keys(Build(TwoShapes).editors["Shape"]) == ["Circle", "Square"]
    ensures Find(Build(TwoShapes).editors, "Shape", "Circle") == Some(EditorInfo(Auto(CreateAutoEditor(CircleType)), None))
  {
    TwoShapesValid();
    TwoShapesPartition();
    TwoShapesCircle();
  }

  lemma TwoShapesValid()
    ensures forall i :: 0 <= i < |TwoShapes| ==> Valid(TwoShapes[i])
  {
  }

  lemma TwoShapesPartition()
    requires forall i :: 0 <= i < |TwoShapes| ==> Valid(TwoShapes[i])
    ensures "Shape" in Build(TwoShapes).editors
    ensures Keys(Build(TwoShapes).editors["Shape"]) == ["Circle", "Square"]
  {
    BuildRoots(TwoShapes, "Shape");
    assert TwoShapes[0].marker.value.root == "Shape";
    BuildKeyOrder(TwoShapes, "Shape");
    TwoShapesKeys();
  }

  lemma TwoShapesCircle()
    requires forall i :: 0 <= i < |TwoShapes| ==> Valid(TwoShapes[i])
    ensures Find(Build(TwoShapes).editors, "Shape", "Circle") == Some(EditorInfo(Auto(CreateAutoEditor(CircleType)), None))
  {
    BuildIsLastWriterWins(TwoShapes, "Shape", "Circle");
    assert TwoShapes[..1] == [CircleType];
  }

  lemma TwoShapesKeys()
    ensures Dedup(KeysFor(TwoShapes, "Shape")) == ["Circle", "Square"]
  {
    TwoShapesKeysFor();
    CircleSquareDistinct();
  }

  lemma TwoShapesKeysFor()
    ensures KeysFor(TwoShapes, "Shape") == ["Circle", "Square"]
  {
    var t1 := [CircleType];
    assert TwoShapes[..1] == t1 && t1[..0] == [];
    assert KeysFor([], "Shape") == [];
    assert KeysFor(t1, "Shape") == ["Circle"];
  }

  lemma CircleSquareDistinct()
    ensures Dedup(["Circle", "Square"]) == ["Circle", "Square"]
  {
    var ks := ["Circle", "Square"];
    assert ks[..1] == ["Circle"] && ks[..1][..0] == [];
    assert Dedup(["Circle"]) == ["Circle"];
  }

  /** Picking `Circle` on an empty slot constructs a circle; picking `None` afterwards
      empties the slot again. */
  lemma PickCircleThenNone(host: Host)
    ensures var editors := Build(TwoShapes).editors;
            PopupFits(editors, "Shape", Picked(1))
            && PickerAnswer(editors, "Shape", Null, "", Picked(1), host) == Slot("Circle", CircleInstance)
            && PickerAnswer(editors, "Shape", CircleInstance, "Circle", Picked(0), host) == Slot("", Null)
  {
    TwoShapesRegistry();
    var editors := Build(TwoShapes).editors;
    assert Choices(editors["Shape"]) == ["None", "Circle", "Square"];
  }
}
