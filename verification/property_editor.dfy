/** `PolymorphicPropertyEditor`, the editor generated for a type that has no hand-written
    one. The serialized property it edits is represented by the value it currently holds
    (what `GetTargetObjectWithProperty` resolves); assigning `managedReferenceValue`
    replaces that value. */
module PropertyEditors {
  import opened Results
  import opened ObjectGraph
  import opened PropertyPath
  import opened Layout

  /** An editor for properties of exactly `propertyType`: `made` is the instance its
      constructor returns, `displayProps` the relative paths of the fields it lists
      (`None` for a null array). */
  datatype PropertyEditor = PropertyEditor(propertyType: TypeId, made: Value, displayProps: Option<seq<string>>)

  /** The `ArgumentNullException`s of the constructor. */
  datatype ArgumentNull = NullPropertyType | NullConstructor

  /** The constructor: the property type is checked first, then the constructor delegate;
      a missing field list is allowed. */
  function NewPropertyEditor(propertyType: Option<TypeId>, ctor: Option<Value>, displayProps: Option<seq<string>>)
    : (r: Result<PropertyEditor, ArgumentNull>)
    ensures r.Ok? <==> propertyType.Some? && ctor.Some?
    ensures propertyType.None? ==> r == Err(NullPropertyType)
    ensures propertyType.Some? && ctor.None? ==> r == Err(NullConstructor)
    ensures r.Ok? ==> r.value.propertyType == propertyType.value && r.value.made == ctor.value
                      && r.value.displayProps == displayProps
  {
    match propertyType
    case None => Err(NullPropertyType)
    case Some(t) =>
      match ctor
      case None => Err(NullConstructor)
      case Some(c) => Ok(PropertyEditor(t, c, displayProps))
  }

  /** The stored value is non-null and its runtime type is exactly the editor's type. */
  predicate Holds(ed: PropertyEditor, v: Value)
  {
    RuntimeType(v) == Some(ed.propertyType)
  }

  /** An editor whose constructor yields an instance of exactly its type, as every
      generated editor's does. */
  predicate Faithful(ed: PropertyEditor)
  {
    Holds(ed, ed.made)
  }

  /** `Init`: the value the property holds afterwards. A fresh instance replaces a null
      value or one of any other runtime type, subclasses included; a value of exactly the
      editor's type is kept. */
  function Reconcile(ed: PropertyEditor, cur: Value): (after: Value)
    ensures Holds(ed, cur) ==> after == cur
    ensures !Holds(ed, cur) ==> after == ed.made
  {
    if cur.Null? || cur.ty != ed.propertyType then ed.made else cur
  }

  /** With a faithful constructor, reconciling establishes the stored-type invariant and
      a second reconciliation changes nothing. */
  lemma ReconcileEstablishesInvariant(ed: PropertyEditor, cur: Value)
    requires Faithful(ed)
    ensures Holds(ed, Reconcile(ed, cur))
    ensures Reconcile(ed, Reconcile(ed, cur)) == Reconcile(ed, cur)
  {
  }

  /** An instance of a subclass of the editor's type is replaced, although it is one. */
  lemma SubclassIsReplaced(tt: TypeTable, ed: PropertyEditor, cur: Value)
    requires cur.Obj? && cur.ty != ed.propertyType && ed.propertyType in Levels(tt, cur.ty)
    ensures Reconcile(ed, cur) == ed.made
  {
  }

  /** `Init` as written: the property is resolved through its path and `Some(v)` is the
      value assigned to it, `None` when nothing is assigned. A path whose index is
      malformed makes the resolution throw. */
  function InitAt(ed: PropertyEditor, tt: TypeTable, target: Value, path: string): (r: Result<Option<Value>, PathError>)
    ensures r.Err? <==> GetTargetObjectWithProperty(tt, target, path).Err?
    ensures r.Err? <==> MalformedPath(path)
    ensures r.Ok? ==> var cur := GetTargetObjectWithProperty(tt, target, path).value;
                      (r.value.None? <==> Holds(ed, cur))
                      && (r.value.Some? ==> r.value.value == ed.made)
                      && (if r.value.Some? then r.value.value else cur) == Reconcile(ed, cur)
  {
    match GetTargetObjectWithProperty(tt, target, path)
    case Err(e) => Err(e)
    case Ok(cur) => if cur == Null || RuntimeType(cur) != Some(ed.propertyType) then Ok(Some(ed.made)) else Ok(None)
  }

  /** A measured height together with the value the property holds after measuring. */
  datatype Measured = Measured(after: Value, height: int)

  /** The heights the host reports for the fields of a property holding `v`:
      `fieldHeight(v, path)` for the field at `path`. */
  function HeightsAt(fieldHeight: (Value, string) -> int, v: Value): string -> int
  {
    p => fieldHeight(v, p)
  }

  /** The height of the listed fields of `v`. */
  function ListedHeight(ed: PropertyEditor, fieldHeight: (Value, string) -> int, v: Value): int
  {
    match ed.displayProps
    case None => 0
    case Some(props) => FieldsHeight(HeightsAt(fieldHeight, v), props)
  }

  /** `GetPropertyHeight`: reconcile first, then the listed fields' height plus `GetHeight`,
      which is 0 for this editor. */
  function GetPropertyHeight(ed: PropertyEditor, fieldHeight: (Value, string) -> int, cur: Value): (r: Measured)
    ensures r.after == Reconcile(ed, cur)
    ensures ed.displayProps.None? ==> r.height == 0
    ensures ed.displayProps.Some? ==>
              r.height == SumHeights(HeightsAt(fieldHeight, r.after), ed.displayProps.value) + GetHeight(r.after)
  {
    var after := Reconcile(ed, cur);
    assert ed.displayProps.Some? ==>
             ListedHeight(ed, fieldHeight, after) == SumHeights(HeightsAt(fieldHeight, after), ed.displayProps.value) by {
      if ed.displayProps.Some? { AggregateIsSum(0, HeightsAt(fieldHeight, after), ed.displayProps.value); }
    }
    Measured(after, ListedHeight(ed, fieldHeight, after) + GetHeight(after))
  }

  /** The virtual `GetHeight`: this editor adds nothing below its fields. */
  function GetHeight(v: Value): int
  {
    0
  }

  /** Because the value is reconciled before it is measured, every value the editor
      replaces measures the same: the height of a fresh instance. */
  lemma HeightOfReplacedValue(ed: PropertyEditor, fieldHeight: (Value, string) -> int, a: Value, b: Value)
    requires !Holds(ed, a) && !Holds(ed, b)
    ensures GetPropertyHeight(ed, fieldHeight, a) == GetPropertyHeight(ed, fieldHeight, b)
    ensures GetPropertyHeight(ed, fieldHeight, a).height == ListedHeight(ed, fieldHeight, ed.made)
  {
  }

  /** What `DisplayPropertyGui` did: the value held afterwards, the indent level while the
      fields are drawn and after returning, where each field was drawn and the rectangle
      handed to `OnGUI`. */
  datatype Display = Display(after: Value, fieldIndent: int, indentAfter: int, drawn: seq<Rect>, onGuiRect: Rect)

  /** `DisplayPropertyGui`: reconcile, indent one level, draw the listed fields from the
      top of `rect`, give `OnGUI` the line below them (all of `rect` when nothing is
      listed) and restore the indent level. */
  method DisplayPropertyGui(ed: PropertyEditor, rect: Rect, indent: int, fieldHeight: (Value, string) -> int, cur: Value)
    returns (d: Display)
    ensures d.after == Reconcile(ed, cur)
    ensures d.indentAfter == indent && d.fieldIndent == indent + 1
    ensures ed.displayProps.None? ==> d.onGuiRect == rect && d.drawn == []
    ensures ed.displayProps.Some? ==> |d.drawn| == |ed.displayProps.value|
    ensures ed.displayProps.Some? ==>
              forall i :: 0 <= i < |d.drawn| ==>
                d.drawn[i] == LineBelow(rect, SumHeights(HeightsAt(fieldHeight, d.after), ed.displayProps.value[..i]))
    ensures ed.displayProps.Some? ==> d.onGuiRect == LineBelow(rect, GetPropertyHeight(ed, fieldHeight, cur).height)
  {
    var after := Reconcile(ed, cur);
    var level := indent + 1;
    var r := rect;
    var drawn := [];
    match ed.displayProps {
      case Some(props) =>
        r, drawn := RelativePropertyFields(HeightsAt(fieldHeight, after), props, rect);
      case None =>
    }
    d := Display(after, level, level - 1, drawn, r);
  }
}
