/** `PolymorphicPropertyManager.GenericPickerHeight` and `DisplayGenericPicker`, and the
    drawer that stores the picker's answer: a popup of the editors registered for a root
    type, and below it the chosen editor. */
module Picker {
  import opened Results
  import opened ObjectGraph
  import opened Layout
  import opened PropertyEditors
  import opened EditorRegistry

  /** What the model cannot see: the height the host reports for a field of a property
      holding a value, and what a hand-written editor of type `ty` does with a property
      holding `v` through the editor interface: `customHeight(ty, v)` is the height it
      asks for together with the value it leaves, `customDraw(ty, v)` the value its
      drawing leaves. A hand-written editor may itself be a `PolymorphicPropertyEditor`,
      in which case both reconcile the property. */
  datatype Host = Host(
    fieldHeight: (Value, string) -> int,
    customHeight: (TypeId, Value) -> Measured,
    customDraw: (TypeId, Value) -> Value)

  /** `GetPropertyHeight` through the editor interface: a generated editor measures as
      `PolymorphicPropertyEditor` does, a hand-written one as the host says. */
  function EditorHeight(e: Editor, host: Host, cur: Value): Measured
  {
    match e
    case HandWritten(ty) => host.customHeight(ty, cur)
    case Auto(ed) => GetPropertyHeight(ed, host.fieldHeight, cur)
  }

  /** The value the property holds after `DisplayPropertyGui` through the editor
      interface. */
  function EditorDraw(e: Editor, host: Host, cur: Value): Value
  {
    match e
    case HandWritten(ty) => host.customDraw(ty, cur)
    case Auto(ed) => Reconcile(ed, cur)
  }

  /** The hand-written editor `ty` draws exactly as the generated editor `ed` would: what
      a hand-written subclass of `PolymorphicPropertyEditor` that leaves the drawing to
      its base class does. */
  ghost predicate DrawsLike(host: Host, ty: TypeId, ed: PropertyEditor)
  {
    forall v :: host.customDraw(ty, v) == Reconcile(ed, v)
  }

  /** Drawing a hand-written editor twice leaves what drawing it once left. */
  ghost predicate StableDrawing(host: Host)
  {
    forall ty, v :: host.customDraw(ty, host.customDraw(ty, v)) == host.customDraw(ty, v)
  }

  /** `GenericPickerHeight` on a registry: one line for the popup, plus the selected
      editor's height when there is one; the property then holds what measuring with that
      editor left in it, reconciled when the editor is a generated one. */
  function PickerHeight(editors: Editors, root: TypeId, selected: string, host: Host, cur: Value): (r: Measured)
    ensures Find(editors, root, selected).None? ==> r == Measured(cur, LineHeight)
    ensures Find(editors, root, selected).Some? ==>
              r.height == EditorHeight(Find(editors, root, selected).value.editor, host, cur).height + LineHeight
              && r.after == EditorHeight(Find(editors, root, selected).value.editor, host, cur).after
    ensures Find(editors, root, selected).Some? && Find(editors, root, selected).value.editor.Auto? ==>
              r.after == Reconcile(Find(editors, root, selected).value.editor.auto, cur)
  {
    if root !in editors then Measured(cur, LineHeight)
    else
      match Lookup(editors[root], selected)
      case None => Measured(cur, LineHeight)
      case Some(info) =>
        var m := EditorHeight(info.editor, host, cur);
        Measured(m.after, m.height + LineHeight)
  }

  /** The popup's entries: `None`, then the keys in the partition's order. */
  function Choices(p: Partition): (c: seq<string>)
    ensures |c| == |p| + 1 && c[0] == "None"
    ensures forall i :: 0 <= i < |p| ==> c[i + 1] == p[i].key
  {
    ["None"] + Keys(p)
  }

  /** The last position of `x` in `ks`. */
  function LastPosition(ks: seq<string>, x: string): (i: nat)
    requires x in ks
    ensures i < |ks| && ks[i] == x
    ensures forall j :: i < j < |ks| ==> ks[j] != x
    decreases |ks|
  {
    if ks[|ks| - 1] == x then |ks| - 1
    else
      assert x in ks[..|ks| - 1] by {
        var k :| 0 <= k < |ks| && ks[k] == x;
        assert ks[..|ks| - 1][k] == x;
      }
      LastPosition(ks[..|ks| - 1], x)
  }

  /** The entry the popup opens on: the one showing the stored key, `None` when the key
      is not registered. */
  function PreselectedIndex(p: Partition, selected: string): (k: nat)
    ensures k <= |p|
    ensures k == 0 <==> selected !in Keys(p)
    ensures k > 0 ==> p[k - 1].key == selected
  {
    if selected in Keys(p) then LastPosition(Keys(p), selected) + 1 else 0
  }

  /** The loop that fills the popup's entries and remembers where the stored key is. */
  method Preselect(p: Partition, selected: string) returns (labels: seq<string>, k: nat)
    ensures labels == Choices(p)
    ensures k == PreselectedIndex(p, selected)
  {
    labels := ["None"];
    k := 0;
    var ks := Keys(p);
    var i := 0;
    while i < |ks|
      invariant 0 <= i <= |ks|
      invariant labels == ["None"] + ks[..i]
      invariant k == 0 <==> selected !in ks[..i]
      invariant k > 0 ==> k <= i && ks[k - 1] == selected && forall j :: k - 1 < j < i ==> ks[j] != selected
    {
      if ks[i] == selected {
        k := i + 1;
      }
      assert ks[..i + 1] == ks[..i] + [ks[i]];
      labels := labels + [ks[i]];
      i := i + 1;
    }
    assert ks[..i] == ks;
    if k > 0 {
      assert LastPosition(ks, selected) == k - 1;
    }
  }

  /** Choosing an entry and opening the popup again on the key it returned lands on the
      same entry: keys are unique, so a key names one entry. */
  lemma ChoiceRoundTrip(p: Partition, k: nat)
    requires UniqueKeys(p)
    requires 1 <= k <= |p|
    ensures PreselectedIndex(p, Choices(p)[k]) == k
  {
    var ks := Keys(p);
    assert ks[k - 1] == Choices(p)[k];
  }

  /** The user's answer to the popup: left alone, it returns the entry it opened on. */
  datatype Popup = Unchanged | Picked(index: nat)

  function Chosen(popup: Popup, preselected: nat): nat
  {
    match popup
    case Unchanged => preselected
    case Picked(i) => i
  }

  /** The documentation link offered in a context menu: a non-empty `docUrl`. */
  function DocsLink(info: EditorInfo): (link: Option<string>)
    ensures link.Some? <==> info.docUrl.Some? && |info.docUrl.value| > 0
  {
    match info.docUrl
    case Some(u) => if |u| > 0 then Some(u) else None
    case None => None
  }

  /** The serialized fields of a `PolymorphicProperty` that the drawer reads and writes:
      the stored editor key and the property's value. */
  datatype Slot = Slot(editorKey: string, value: Value)

  /** A popup answer the host can give: an index among the entries shown. */
  predicate PopupFits(editors: Editors, root: TypeId, popup: Popup)
  {
    root in editors && popup.Picked? ==> popup.index <= |editors[root]|
  }

  /** The key `DisplayGenericPicker` returns and the value the property holds after it,
      starting from the stored key `selected` and value `cur`. */
  function PickerAnswer(editors: Editors, root: TypeId, cur: Value, selected: string, popup: Popup, host: Host): (a: Slot)
    requires PopupFits(editors, root, popup)
    ensures root !in editors ==> a == Slot("", cur)
    ensures root in editors && Chosen(popup, PreselectedIndex(editors[root], selected)) == 0 ==> a == Slot("", Null)
    ensures root in editors && Chosen(popup, PreselectedIndex(editors[root], selected)) > 0 ==>
              a.editorKey in Keys(editors[root])
              && a.editorKey == Choices(editors[root])[Chosen(popup, PreselectedIndex(editors[root], selected))]
  {
    if root !in editors then Slot("", cur)
    else
      var p := editors[root];
      var k := Chosen(popup, PreselectedIndex(p, selected));
      if k == 0 then Slot("", Null)
      else
        var key := Choices(p)[k];
        assert key == Keys(p)[k - 1];
        var info := Lookup(p, key).value;
        Slot(key, EditorDraw(info.editor, host, cur))
  }

  /** What one pass of `DisplayGenericPicker` did besides its answer: the popup's entries
      and the one it opened on, the documentation link offered, and where the chosen
      editor was drawn. */
  datatype PickerPass = PickerPass(
    answer: Slot,
    shown: seq<string>,
    preselected: nat,
    docs: Option<string>,
    editorRect: Option<Rect>)

  /** `DisplayGenericPicker` on a registry. With no partition for the root type only a
      message is drawn and `""` returned. Otherwise the popup offers `None` and the keys;
      `None` clears the property and returns `""`; a key is returned and its editor drawn
      one line below the popup, a generated editor reconciling the property as it draws. */
  method DisplayGenericPicker(
    editors: Editors, root: TypeId, rect: Rect, cur: Value, selected: string,
    popup: Popup, host: Host, indent: int)
    returns (res: PickerPass)
    requires PopupFits(editors, root, popup)
    ensures res.answer == PickerAnswer(editors, root, cur, selected, popup, host)
    ensures root !in editors ==> res.editorRect.None? && res.docs.None?
    ensures root in editors ==> res.shown == Choices(editors[root])
                                && res.preselected == PreselectedIndex(editors[root], selected)
    ensures root in editors && Chosen(popup, res.preselected) == 0 ==> res.editorRect.None? && res.docs.None?
    ensures root in editors && Chosen(popup, res.preselected) > 0 ==>
              res.docs == DocsLink(Find(editors, root, res.answer.editorKey).value)
              && res.editorRect == Some(AdvanceOneLine(SingleLineRect(rect)))
  {
    if root !in editors {
      return PickerPass(Slot("", cur), [], 0, None, None);
    }
    var l := editors[root];
    var labels, preselected := Preselect(l, selected);
    var r := SingleLineRect(rect);
    var chosen := Chosen(popup, preselected);
    if chosen == 0 {
      return PickerPass(Slot("", Null), labels, preselected, None, None);
    }
    var key := labels[chosen];
    assert key == Keys(l)[chosen - 1];
    var info := Lookup(l, key).value;
    var docs := DocsLink(info);
    r := AdvanceOneLine(r);
    var after;
    match info.editor {
      case HandWritten(ty) =>
        after := host.customDraw(ty, cur);
      case Auto(ed) =>
        var d := DisplayPropertyGui(ed, r, indent, host.fieldHeight, cur);
        after := d.after;
    }
    res := PickerPass(Slot(key, after), labels, preselected, docs, Some(r));
  }

  /** For a generated editor the picker's layout agrees with its measured height: the
      editor's area starts one line below the popup, and the rectangle it hands `OnGUI`
      (the line below its fields, or its whole area when it lists none) starts exactly
      the measured height below the top of the picker. */
  method PickerLayoutMatchesHeight(
    editors: Editors, root: TypeId, rect: Rect, cur: Value, selected: string, host: Host, indent: int)
    returns (onGuiRect: Rect)
    requires Find(editors, root, selected).Some? && Find(editors, root, selected).value.editor.Auto?
    ensures onGuiRect == LineBelow(rect, PickerHeight(editors, root, selected, host, cur).height)
  {
    var ed := Find(editors, root, selected).value.editor.auto;
    var d := DisplayPropertyGui(ed, AdvanceOneLine(SingleLineRect(rect)), indent, host.fieldHeight, cur);
    onGuiRect := d.onGuiRect;
  }

  /** The answer stores a key that opens the popup on the chosen entry next time, unless
      `None` was chosen while some editor is registered under the empty label, which then
      stands in for `None`. */
  lemma AnswerReopensOnChoice(editors: Editors, root: TypeId, cur: Value, selected: string, popup: Popup, host: Host)
    requires PopupFits(editors, root, popup) && WellFormedRegistry(editors)
    requires root in editors
    ensures var k := Chosen(popup, PreselectedIndex(editors[root], selected));
            k > 0 || "" !in Keys(editors[root]) ==>
            PreselectedIndex(editors[root], PickerAnswer(editors, root, cur, selected, popup, host).editorKey) == k
  {
    var p := editors[root];
    var k := Chosen(popup, PreselectedIndex(p, selected));
    if k > 0 {
      ChoiceRoundTrip(p, k);
    }
  }

  /** The only value the picker itself writes is `null`, for `None`; otherwise the
      property holds what drawing the chosen editor left in it. A generated editor
      reconciles it (so it then holds exactly that editor's type); a hand-written one does
      what its own drawing does. */
  lemma AnswerValue(editors: Editors, root: TypeId, cur: Value, selected: string, popup: Popup, host: Host)
    requires PopupFits(editors, root, popup)
    requires root in editors
    ensures var a := PickerAnswer(editors, root, cur, selected, popup, host);
            Chosen(popup, PreselectedIndex(editors[root], selected)) == 0 ==> a.value == Null
    ensures var a := PickerAnswer(editors, root, cur, selected, popup, host);
            Chosen(popup, PreselectedIndex(editors[root], selected)) > 0 ==>
            match Find(editors, root, a.editorKey).value.editor
            case HandWritten(ty) => a.value == host.customDraw(ty, cur)
            case Auto(ed) => a.value == Reconcile(ed, cur) && (Faithful(ed) ==> Holds(ed, a.value))
  {
    var a := PickerAnswer(editors, root, cur, selected, popup, host);
    var p := editors[root];
    var k := Chosen(popup, PreselectedIndex(p, selected));
    if k > 0 {
      assert a.editorKey == Choices(p)[k];
      match Find(editors, root, a.editorKey).value.editor
      case HandWritten(_) =>
      case Auto(ed) =>
        if Faithful(ed) {
          ReconcileEstablishesInvariant(ed, cur);
        }
    }
  }

  /** A hand-written editor that draws as a generated one behaves like it in the picker:
      a pass with it selected replaces a value of another type with a fresh instance. */
  lemma HandWrittenSubclassReconciles(
    editors: Editors, root: TypeId, cur: Value, key: string, host: Host, ty: TypeId, ed: PropertyEditor)
    requires Find(editors, root, key).Some? && Find(editors, root, key).value.editor == HandWritten(ty)
    requires DrawsLike(host, ty, ed) && !Holds(ed, cur)
    ensures PickerAnswer(editors, root, cur, key, Unchanged, host) == Slot(key, ed.made)
  {
    var p := editors[root];
    var k := PreselectedIndex(p, key);
    assert Choices(p)[k] == key;
  }

  /** A stored key that is no longer registered opens the popup on `None`, so a pass
      without user input clears the property. */
  lemma StaleKeyClears(editors: Editors, root: TypeId, cur: Value, selected: string, host: Host)
    requires root in editors && selected !in Keys(editors[root])
    ensures PickerAnswer(editors, root, cur, selected, Unchanged, host) == Slot("", Null)
  {
  }

  /** Drawing again without user input keeps what the last pass stored: the answer is a
      fixed point of the picker, provided no editor is registered under the empty label
      and drawing a hand-written editor a second time changes nothing. */
  lemma AnswerIsStable(editors: Editors, root: TypeId, cur: Value, selected: string, popup: Popup, host: Host)
    requires PopupFits(editors, root, popup) && WellFormedRegistry(editors)
    requires root in editors ==> "" !in Keys(editors[root])
    requires StableDrawing(host)
    ensures var a := PickerAnswer(editors, root, cur, selected, popup, host);
            PickerAnswer(editors, root, a.value, a.editorKey, Unchanged, host) == a
  {
    var a := PickerAnswer(editors, root, cur, selected, popup, host);
    if root in editors {
      var p := editors[root];
      var k := Chosen(popup, PreselectedIndex(p, selected));
      AnswerReopensOnChoice(editors, root, cur, selected, popup, host);
      if k > 0 {
        AnswerValue(editors, root, cur, selected, popup, host);
        AnswerValue(editors, root, a.value, a.editorKey, Unchanged, host);
        assert Find(editors, root, a.editorKey).Some?;
      }
    }
  }

  /** What one call of the drawer's `GetPropertyHeight` leaves: the registry cache and,
      unless `Init` threw, the measured height and the value measuring left. */
  datatype HeightPass = HeightPass(cache: Editors, measured: Result<Measured, ConfigError>)

  /** The drawer's `GetPropertyHeight`: `GenericPickerHeight` for the stored key, which
      calls `Init` first. When `Init` throws nothing is measured, but the cache it filled
      stays. */
  function DrawerHeight(cache: Option<Editors>, types: seq<TypeDesc>, root: TypeId, slot: Slot, host: Host)
    : (r: HeightPass)
    ensures r.cache == Init(cache, types).editors
    ensures r.measured.Err? <==> Init(cache, types).error.Some?
    ensures r.measured.Err? ==> r.measured.error == Init(cache, types).error.value
    ensures r.measured.Ok? ==> r.measured.value == PickerHeight(r.cache, root, slot.editorKey, host, slot.value)
  {
    var s := Init(cache, types);
    if s.error.Some? then HeightPass(s.editors, Err(s.error.value))
    else HeightPass(s.editors, Ok(PickerHeight(s.editors, root, slot.editorKey, host, slot.value)))
  }

  /** What one call of the drawer's `OnGUI` leaves: the registry cache and, unless `Init`
      threw, the slot with the picker's answer stored in it. */
  datatype DrawerPass = DrawerPass(cache: Editors, stored: Result<Slot, ConfigError>)

  /** The drawer's `OnGUI`: `Init`, then the picker; its returned key replaces the stored
      editor key. When `Init` throws nothing is stored, but the cache it filled stays. */
  function DrawerOnGui(cache: Option<Editors>, types: seq<TypeDesc>, root: TypeId, slot: Slot, popup: Popup, host: Host)
    : (r: DrawerPass)
    requires PopupFits(Init(cache, types).editors, root, popup)
    ensures r.cache == Init(cache, types).editors
    ensures r.stored.Err? <==> Init(cache, types).error.Some?
    ensures r.stored.Ok? ==> r.stored.value == PickerAnswer(r.cache, root, slot.value, slot.editorKey, popup, host)
  {
    var s := Init(cache, types);
    if s.error.Some? then DrawerPass(s.editors, Err(s.error.value))
    else DrawerPass(s.editors, Ok(PickerAnswer(s.editors, root, slot.value, slot.editorKey, popup, host)))
  }

  /** The host measures before it draws. After a rejected type the first height query
      throws; the `OnGUI` that follows uses the partial registry that query cached and
      throws nothing, and so does every later height query. */
  lemma DrawerAfterFailure(types: seq<TypeDesc>, k: nat, root: TypeId, slot: Slot, popup: Popup, host: Host)
    requires k < |types|
    requires forall j :: 0 <= j < k ==> Valid(types[j])
    requires !Valid(types[k])
    requires PopupFits(Init(None, types).editors, root, popup)
    ensures var h := DrawerHeight(None, types, root, slot, host);
            h.measured == Err(ErrorOf(types[k]))
            && DrawerOnGui(Some(h.cache), types, root, slot, popup, host)
               == DrawerPass(h.cache, Ok(PickerAnswer(h.cache, root, slot.value, slot.editorKey, popup, host)))
            && DrawerHeight(Some(h.cache), types, root, slot, host).measured.Ok?
  {
    InitAfterFailure(types, k);
  }
}
