# PolymorphicProperties editor core in Dafny

PolymorphicProperties is a Unity editor extension. A serialized field of a root type (say
`Shape`) is shown in the inspector as a popup. The popup offers `None` and every editor
registered for that root type. The chosen editor's key is stored next to the value, and
the chosen editor draws the value below the popup. This project models the logic that
sits under those GUI calls and proves properties of it:

- **Path resolver** (`EditorUtils`): `GetTargetObjectWithProperty` and the two
  `GetValue_Imp` overloads. A serialized property path such as
  `items.Array.data[2].name` is rewritten, split at `.`, and each segment is parsed into
  a name and an optional index. The segments are then followed through an object graph:
  at each base-type level a field is tried before a property, and element `i` of a member
  is taken through the member's enumerator. Everything here is a pure function of the
  graph, so resolution only reads.
- **Layout** (`EditorUtils`): `SingleLineRect`, `AdvanceOneLine`,
  `RelativePropertyFields` and `RelativePropertyFieldsHeight`, over integer rectangles.
- **Generated editor** (`PolymorphicPropertyEditor`): the constructor's null checks. It
  also models `Init`, which reconciles the stored value: a fresh instance replaces
  anything that is not exactly the editor's type. `GetPropertyHeight` and
  `DisplayPropertyGui` are modelled too, and both reconcile before they measure or draw.
- **Registry** (`PolymorphicPropertyManager.Init` and `CreateAutoEditor`): the one-shot
  scan of all types into a map from root type to an insertion-ordered dictionary from
  key to editor. It keeps the scan's check order and its exceptions. Later registrations
  overwrite earlier ones. The cache stays in place after a failed scan.
- **Picker** (`GenericPickerHeight`, `DisplayGenericPicker`): the `None`-first choice
  list, the preselected entry, and what the user's answer does to the stored key and value.
- **Drawer glue** (`PolymorphicPropertyDrawer`): one `GetPropertyHeight` pass and one
  `OnGUI` pass, each as `Init` followed by the picker, with the picker's answer stored
  back into the slot.

Modules, in dependency order:
- `Results` (`results.dfy`), `Text` (`text.dfy`), `ObjectGraph` (`graph.dfy`).
- `PropertyPath` (`path.dfy`), `HostPaths` (`host_path.dfy`), `Layout` (`layout.dfy`).
- `PropertyEditors` (`property_editor.dfy`), `EditorRegistry` (`registry.dfy`),
  `Picker` (`picker.dfy`), `ShapeScenario` (`scenario.dfy`).

## Behaviour of the code worth knowing

These are properties of the code as written; the model keeps them and proves them.

- **Nested indexes concatenate.** A segment's index is its text after the first `[` with
  every bracket removed. So `a[2][3]` denotes element 23 of `a`, and a list nested in a
  list, `a.Array.data[2].Array.data[3]`, resolves to element 23 of `a`
  (`PropertyPath.NestedIndexExample`, `HostPaths.NestedListPathExample`).
- **The picker writes only `null`.** `DisplayGenericPicker` assigns the value only when
  `None` is chosen. Otherwise the value is whatever the chosen editor's
  `DisplayPropertyGui` leaves: a generated editor reconciles it to its own type, and a
  hand-written editor does what its own code does. A hand-written subclass of
  `PolymorphicPropertyEditor` reconciles as well, because `DisplayPropertyGui` and `Init`
  are not virtual (`Picker.AnswerValue`, `Picker.HandWrittenSubclassReconciles`,
  `ShapeScenario.SwitchToCircleSubclass`).
- **Only generated entries construct the root type.** An entry is guaranteed to construct
  an instance assignable to the root type only if it is generated. A hand-written editor
  type is registered even when the root type is not assignable from it
  (`EditorRegistry.InfoOf`).
- **A stale key clears the value.** A stored key that is no longer registered
  preselects `None`. A pass without user input then clears the value
  (`Picker.StaleKeyClears`).
- **The empty label.** An editor registered under the empty label `""` stands in for
  `None`: choosing `None` stores `""`, which reopens on that editor. `Picker.AnswerIsStable`
  and `Picker.AnswerReopensOnChoice` exclude exactly this case.
- **A failed scan leaves a partial registry.** After the scan throws, the partial
  registry stays cached, including the failing type's root partition. Later calls
  return it without rescanning (`EditorRegistry.InitAfterFailure`,
  `Picker.DrawerAfterFailure`).

## Model

| member | source | states |
|---|---|---|
| Text.ReplaceAllSkipsPrefix | Editor/EditorUtils.cs:85 | `Replace` copies a prefix free of the pattern's first character and resumes after it |
| Text.ReplaceAllAtOccurrence | Editor/EditorUtils.cs:85 | an occurrence at the front is replaced and the left-to-right pass resumes after it |
| Text.ReplaceAllWithoutOccurrence | Editor/EditorUtils.cs:85 | `Replace` leaves a string without the pattern unchanged |
| Text.Split | Editor/EditorUtils.cs:87 | `Split('.')` yields at least one piece and no piece contains the separator |
| Text.JoinSplit | Editor/EditorUtils.cs:87 | joining the pieces of `Split` with the separator gives the original string back |
| Text.SplitJoin | Editor/EditorUtils.cs:87 | splitting separator-free pieces joined by the separator gives the pieces back |
| Text.IndexOf | Editor/EditorUtils.cs:92 | `IndexOf` is the first position of the character |
| Text.IndexOfAfter | Editor/EditorUtils.cs:92 | the first `[` of a name followed by `[...` is right after the name |
| Text.Without | Editor/EditorUtils.cs:93 | removing `[` and `]` leaves no bracket and never lengthens the text |
| Text.WithoutConcat | Editor/EditorUtils.cs:93 | bracket removal distributes over concatenation |
| Text.NumberValueOfDecimalText | Editor/EditorUtils.cs:93 | reading back the decimal text of a number gives the number |
| Text.NumberValueConcat | Editor/EditorUtils.cs:93 | two digit runs read as one number: the left shifted by the right's length |
| Text.ParseInt32OfDecimalText | Editor/EditorUtils.cs:93 | `Convert.ToInt32` of the decimal text of any index up to 2^31-1 gives that index |
| Text.ParseInt32Concat | Editor/EditorUtils.cs:93 | `Convert.ToInt32` of concatenated digit runs is the shifted sum |
| Text.Lower | Editor/EditorUtils.cs:116 | case folding keeps the length, turns each capital into its own small letter, leaves no capital and keeps every other character in place |
| Text.LowerIsIdempotent | Editor/EditorUtils.cs:116 | folding a folded text changes nothing; a text is its own folding iff it has no capital |
| ObjectGraph.Levels | Editor/EditorUtils.cs:108-120 | the lookup starts at the runtime type |
| ObjectGraph.FindProperty | Editor/EditorUtils.cs:116-118 | a property is found iff some declared property equals the name ignoring case; the one found does, and is the first declared that does |
| ObjectGraph.FindPropertyIsOnlyMatch | Editor/EditorUtils.cs:116-118 | when no two properties of a level are equal up to case, the one found is the only declared property matching the name |
| ObjectGraph.MemberAt | Editor/EditorUtils.cs:112-118 | at one level an exact-name field wins; else a case-insensitive property of that level; nothing iff neither exists; a name no field has is never read as a field |
| ObjectGraph.FindMemberIsFirstMatch | Editor/EditorUtils.cs:110-122 | the member found is the one at the first base-type level that has one; none iff no level has one |
| ObjectGraph.GetValueReadsFirstLevel | Editor/EditorUtils.cs:104-123 | `GetValue_Imp` reads the member of the first level that declares the name, and is null when no level does |
| ObjectGraph.PropertyLookupIgnoresCase | Editor/EditorUtils.cs:116 | names equal up to case find the same property member |
| ObjectGraph.FindPropertyIgnoresCase | Editor/EditorUtils.cs:116 | the property search gives the same answer for names equal up to case |
| ObjectGraph.FieldLookupIsCaseSensitive | Editor/EditorUtils.cs:112-118 | a field `Count` is not found as `count`, a property `Count` is |
| ObjectGraph.Enumerate | Editor/EditorUtils.cs:129-138 | calling `MoveNext` index+1 times yields element `index`, or null past the end |
| ObjectGraph.GetValueIndexed | Editor/EditorUtils.cs:125-139 | the indexed lookup is the element of the member seen as a collection: null for a null, missing or non-enumerable member and past the end |
| PropertyPath.ParseSegment | Editor/EditorUtils.cs:90-98 | a segment without `[` is a plain member; an indexed one is named by exactly the text before its first `[` |
| PropertyPath.ParseSegmentFails | Editor/EditorUtils.cs:90-98 | a segment throws iff it has a `[` and `Convert.ToInt32` rejects its bracket-free rest (empty, a non-digit, or above 2^31-1), naming that text; otherwise an indexed segment's index is the number that text spells |
| PropertyPath.LetterIndexIsMalformed | Editor/EditorUtils.cs:92-93 | `a[x]` throws on the index text `x` |
| PropertyPath.StripBracketsConcat | Editor/EditorUtils.cs:93 | bracket stripping of the index text distributes over concatenation |
| PropertyPath.StripBracketedDigits | Editor/EditorUtils.cs:93 | `[d]` strips to `d` |
| PropertyPath.ParseSegments | Editor/EditorUtils.cs:88-100 | parsing all segments succeeds iff each does, positionally, and fails on the first malformed index |
| PropertyPath.ParsePathFails | Editor/EditorUtils.cs:85-100 | the rewritten, split path fails to parse iff one of its elements has a malformed index |
| PropertyPath.GetTargetObjectWithProperty | Editor/EditorUtils.cs:83-102 | resolving a path throws iff one of its elements has a malformed index |
| PropertyPath.WalkFromNull | Editor/EditorUtils.cs:106-107 | nothing is reached from null |
| PropertyPath.WalkConcat | Editor/EditorUtils.cs:88-101 | following `a + b` is following `a` and then `b` from where it ended |
| PropertyPath.NullPrefixGivesNull | Editor/EditorUtils.cs:88-101 | once a prefix of the path reaches null, the whole path resolves to null |
| PropertyPath.NullTargetGivesNull | Editor/EditorUtils.cs:83-102 | a null target resolves every well-formed path to null |
| PropertyPath.ParseSegmentAfterName | Editor/EditorUtils.cs:90-94 | `name` + `[...` parses to that name and the index the bracket-free rest denotes |
| PropertyPath.NestedIndexesConcatenate | Editor/EditorUtils.cs:90-94 | `n[a][b]` parses to element `a * 10^len(b) + b` of `n` |
| PropertyPath.StripNestedBrackets | Editor/EditorUtils.cs:93 | `[a][b]` strips to the digits `a` then `b` |
| PropertyPath.NestedIndexExample | Editor/EditorUtils.cs:90-94 | `a[2][3]` is element 23 of `a` |
| HostPaths.HostPathOpensNoBracketEarly | Editor/EditorUtils.cs:85 | a serialized path has no `[` in its first eleven characters |
| HostPaths.DotSurvivesRewrite | Editor/EditorUtils.cs:85 | a `.` that does not start `.Array.data[` is kept by the rewrite |
| HostPaths.RewriteStep | Editor/EditorUtils.cs:85 | the rewrite turns `n.Array.data[d]` into `n[d]` and resumes after it |
| HostPaths.RewriteHostPath | Editor/EditorUtils.cs:85 | rewriting a serialized path gives the short texts of its steps joined by `.` |
| HostPaths.RewriteHostPathCons | Editor/EditorUtils.cs:85 | the rewrite of a path extended at the front is the rewritten step followed by the rewritten rest |
| HostPaths.RewriteStepThenDot | Editor/EditorUtils.cs:85 | a step followed by `.` is shortened, the dot kept and the rest rewritten alone |
| HostPaths.ParseShortText | Editor/EditorUtils.cs:90-98 | the short text of a step parses to the segment the step denotes |
| HostPaths.ShortTextHasNoDot | Editor/EditorUtils.cs:87 | the short texts contain no `.`, so `Split('.')` recovers them |
| HostPaths.HostPathRoundTrip | Editor/EditorUtils.cs:85-100 | rewriting, splitting and parsing a serialized path gives back the segments it was written from |
| HostPaths.WrittenMeansItself | Editor/EditorUtils.cs:90-94 | a segment with a plain name and 32-bit index, written as the host writes it, denotes itself |
| HostPaths.SegmentsRoundTrip | Editor/EditorUtils.cs:85-100 | any sequence of plain-named segments survives writing and reading back |
| HostPaths.ArrayDataIsRewritten | Editor/EditorUtils.cs:85-94 | `items.Array.data[2].name` parses to element 2 of `items`, then `name` |
| HostPaths.NestedListPathExample | Editor/EditorUtils.cs:85-94 | `a.Array.data[2].Array.data[3]` parses to element 23 of `a` |
| HostPaths.WalkItemsName | Editor/EditorUtils.cs:88-101 | `items[2].name` reads the third item's name, or null with fewer than three items |
| HostPaths.ResolveItemsExample | Editor/EditorUtils.cs:83-139 | resolving `items.Array.data[2].name` reaches the third item's name, and null past the end |
| Layout.SumHeightsCons | Editor/EditorUtils.cs:55-58 | the sum of heights peels off its first field |
| Layout.AggregateIsSum | Editor/EditorUtils.cs:55-58 | aggregating from a total adds the sum of the heights to it |
| Layout.FieldsHeightConcat | Editor/EditorUtils.cs:55-58 | no fields measure 0; concatenated field lists measure the sum |
| Layout.SumHeightsConcat | Editor/EditorUtils.cs:55-58 | the sum of heights is additive over concatenation |
| Layout.RelativePropertyFields | Editor/EditorUtils.cs:42-53 | field `i` is drawn one line high at the start plus the heights of the fields before it; the result is the line just below all fields, `RelativePropertyFieldsHeight` below the start |
| PropertyEditors.NewPropertyEditor | Editor/PolymorphicPropertyEditor.cs:36-46 | construction succeeds iff type and constructor are non-null; the type is checked first; a null field list is accepted |
| PropertyEditors.Reconcile | Editor/PolymorphicPropertyEditor.cs:80-85 | a value of exactly the editor's type is kept; null or any other runtime type is replaced by a fresh instance |
| PropertyEditors.ReconcileEstablishesInvariant | Editor/PolymorphicPropertyEditor.cs:80-85 | with a faithful constructor the stored type equals the editor's type afterwards and reconciling again changes nothing |
| PropertyEditors.SubclassIsReplaced | Editor/PolymorphicPropertyEditor.cs:83-84 | an instance of a subclass of the editor's type is replaced |
| PropertyEditors.InitAt | Editor/PolymorphicPropertyEditor.cs:80-85 | `Init` through the property path: throws iff some element of the path has a malformed index, else assigns a fresh instance exactly when the resolved value does not hold the type |
| PropertyEditors.GetPropertyHeight | Editor/PolymorphicPropertyEditor.cs:65-73 | measuring reconciles first; the height is the sum of the listed fields' heights on the reconciled value plus `GetHeight`, and `GetHeight` alone (0) with a null field list |
| PropertyEditors.HeightOfReplacedValue | Editor/PolymorphicPropertyEditor.cs:65-76 | any two replaced values measure the same: the listed height of a fresh instance |
| PropertyEditors.DisplayPropertyGui | Editor/PolymorphicPropertyEditor.cs:48-63 | reconciles, draws field `i` one indent level deeper on the line the heights of the fields before it (on the reconciled value) below the top, hands `OnGUI` the line below them all (or the whole rect when none are listed) and restores the indent level |
| EditorRegistry.SerializableNames | Editor/PolymorphicPropertyManager.cs:199-202 | exactly the names of public or `[SerializeField]` fields are listed |
| EditorRegistry.SerializableNamesConcat | Editor/PolymorphicPropertyManager.cs:199-202 | the filter preserves declaration order across concatenation |
| EditorRegistry.CreateAutoEditor | Editor/PolymorphicPropertyManager.cs:190-208 | the generated editor is for exactly the type, built with its parameterless constructor, listing its serializable fields |
| EditorRegistry.Lookup | Editor/PolymorphicPropertyManager.cs:75-80 | `TryGetValue` finds an editor iff the key is among the partition's keys |
| EditorRegistry.PutLookup | Editor/PolymorphicPropertyManager.cs:170-178 | after the indexer's set, the key finds the new editor and every other key what it found before |
| EditorRegistry.PutKeys | Editor/PolymorphicPropertyManager.cs:170-178 | the set keeps the key order and appends a new key at the end |
| EditorRegistry.PutKeepsUnique | Editor/PolymorphicPropertyManager.cs:170-178 | the set never files a key twice |
| EditorRegistry.WithPartition | Editor/PolymorphicPropertyManager.cs:157-160 | an empty partition is added for a new root and other partitions are untouched |
| EditorRegistry.Init | Editor/PolymorphicPropertyManager.cs:140-146 | a cached registry is returned unchanged with no exception; otherwise the scan's result is cached |
| EditorRegistry.RunScan | Editor/PolymorphicPropertyManager.cs:148-187 | the scan loop stopping at the first exception computes the fold over the types |
| EditorRegistry.InfoOf | Editor/PolymorphicPropertyManager.cs:165-183 | a type implementing the editor interface is hand-written even when assignable to the root; otherwise it gets the generated editor and its root is assignable from it |
| EditorRegistry.RegisterOutcome | Editor/PolymorphicPropertyManager.cs:150-186 | unmarked types change nothing; a marked type throws iff invalid, after its root's partition was made; a valid one is filed under its key |
| EditorRegistry.ErrorSticks | Editor/PolymorphicPropertyManager.cs:148-187 | after the first exception later types change nothing |
| EditorRegistry.BuildSucceedsIffAllValid | Editor/PolymorphicPropertyManager.cs:148-187 | the scan succeeds iff every type is valid |
| EditorRegistry.CheckOrder | Editor/PolymorphicPropertyManager.cs:161-186 | a missing parameterless constructor is reported whatever the shape; a wrong shape whatever the label; a null label only for a well-shaped type |
| EditorRegistry.BuildStopsAtFirstInvalid | Editor/PolymorphicPropertyManager.cs:157-187 | the scan ends with the first invalid type's exception, keeping what the types before it built plus that type's root partition |
| EditorRegistry.LastWriter | Editor/PolymorphicPropertyManager.cs:170-178 | the reference answer for a root and key comes from some type marked with that root and key |
| EditorRegistry.Dedup | Editor/PolymorphicPropertyManager.cs:106-110 | the reference key list holds the same keys, each once |
| EditorRegistry.BuildIsLastWriterWins | Editor/PolymorphicPropertyManager.cs:157-183 | after a successful scan each root and key finds the editor of the last type marked with it |
| EditorRegistry.BuildRoots | Editor/PolymorphicPropertyManager.cs:157-160 | a successful scan has a partition exactly for the roots some marked type names |
| EditorRegistry.BuildKeyOrder | Editor/PolymorphicPropertyManager.cs:157-183 | a partition's keys are the distinct labels of that root's types, in first-appearance order |
| EditorRegistry.BuildKeysUnique | Editor/PolymorphicPropertyManager.cs:157-183 | every partition, also after a failed scan, lists each key once |
| EditorRegistry.InitAfterFailure | Editor/PolymorphicPropertyManager.cs:142-187 | the first `Init` throws the first invalid type's exception; the next returns the partial registry with its root, and throws nothing |
| EditorRegistry.BuildIsWellFormed | Editor/PolymorphicPropertyManager.cs:148-187 | every scan leaves duplicate-free partitions |
| EditorRegistry.BuildIsFaithful | Editor/PolymorphicPropertyManager.cs:176-183 | when every type constructs itself, every generated editor constructs exactly its type |
| Picker.PickerHeight | Editor/PolymorphicPropertyManager.cs:68-84 | one line and the value untouched without an editor for the key; otherwise the editor's height plus one line, the value left as measuring with that editor leaves it (reconciled by a generated editor) |
| Picker.Choices | Editor/PolymorphicPropertyManager.cs:101-111 | `count + 1` entries, `None` first, then the keys in order |
| Picker.LastPosition | Editor/PolymorphicPropertyManager.cs:106-110 | the index the preselection loop keeps is the last position holding the key |
| Picker.PreselectedIndex | Editor/PolymorphicPropertyManager.cs:105-111 | 0 iff the stored key is not registered; otherwise the entry showing that key |
| Picker.Preselect | Editor/PolymorphicPropertyManager.cs:101-111 | the loop builds exactly the choice list and the preselected index |
| Picker.ChoiceRoundTrip | Editor/PolymorphicPropertyManager.cs:106-121 | a chosen key preselects the same entry next time |
| Picker.DocsLink | Editor/PolymorphicPropertyManager.cs:124-132 | a documentation link is offered iff the editor's docUrl is non-empty |
| Picker.PickerAnswer | Editor/PolymorphicPropertyManager.cs:86-138 | no partition: `""` and the value untouched; `None`: `""` and a null value; entry k: returns `labels[k]`, a registered key |
| Picker.DisplayGenericPicker | Editor/PolymorphicPropertyManager.cs:86-138 | shows the choice list opened on the preselected entry; a chosen editor is drawn one line below the popup, with its docs link |
| Picker.PickerLayoutMatchesHeight | Editor/PolymorphicPropertyManager.cs:80-82 | for any generated editor, with or without listed fields, what it hands `OnGUI` starts exactly its measured height plus one line below the picker's top |
| Picker.AnswerReopensOnChoice | Editor/PolymorphicPropertyManager.cs:105-121 | the stored answer preselects the chosen entry next time, unless `""` is itself a key |
| Picker.AnswerValue | Editor/PolymorphicPropertyManager.cs:113-135 | the picker itself writes only `null`, for `None`; otherwise the value is what the chosen editor's drawing leaves: a generated editor reconciles it to its own type, a hand-written one does what its drawing does |
| Picker.HandWrittenSubclassReconciles | Editor/PolymorphicPropertyManager.cs:105-135 | a pass with a hand-written editor selected that draws as a generated one keeps the key and replaces a value of another type with a fresh instance |
| Picker.StaleKeyClears | Editor/PolymorphicPropertyManager.cs:105-118 | an unregistered stored key preselects `None`, so an untouched pass clears the value |
| Picker.AnswerIsStable | Editor/PolymorphicPropertyManager.cs:101-137 | on any duplicate-free registry, redrawing without input reproduces the stored answer, when hand-written editors draw idempotently and `""` is not a key |
| Picker.DrawerHeight | Editor/PolymorphicPropertyDrawer.cs:32-38 | a height query keeps the cache `Init` leaves, throws `Init`'s exception iff it throws, and otherwise is the picker's height for the stored key |
| Picker.DrawerOnGui | Editor/PolymorphicPropertyDrawer.cs:40-51 | a drawer pass keeps the cache `Init` leaves, throws iff `Init` does, and otherwise stores the picker's answer |
| Picker.DrawerAfterFailure | Editor/PolymorphicPropertyDrawer.cs:32-51 | after a bad type the first height query throws its exception; the `OnGUI` that follows stores the picker's answer on the partial registry and later height queries succeed |
| ShapeScenario.ShapeRegistry | Editor/PolymorphicPropertyManager.cs:148-187 | with `Circle`, an unmarked type, `Square` and a hand-written `Circle` editor: keys `Circle`, `Square`; the hand-written editor replaced the generated one in place |
| ShapeScenario.CircleListsPublicFields | Editor/PolymorphicPropertyManager.cs:199-202 | the generated `Circle` editor lists only its public field |
| ShapeScenario.StrayTypeIsRejected | Editor/PolymorphicPropertyManager.cs:184-186 | a marked type that is neither editor nor root subtype stops the scan; the next `Init` throws nothing |
| ShapeScenario.SwitchingEditors | Editor/PolymorphicPropertyManager.cs:113-135 | switching to `Square` constructs a square; switching to the hand-written `Circle` stores the key `Circle` and what that editor's drawing leaves |
| ShapeScenario.SwitchToCircleSubclass | Editor/PolymorphicPropertyManager.cs:113-135 | when the hand-written `Circle` editor draws as the generated one, switching to it from `Square` constructs a circle |
| ShapeScenario.PickCircleThenNone | Editor/PolymorphicPropertyManager.cs:113-135 | picking `Circle` on an empty slot constructs a circle; picking `None` empties it again |

## Left out

- GUI calls are not modelled. `EditorGUI.Popup` is the user's answer, given as input. `LabelField` and `PropertyField`
  draw nothing in the model. `indentLevel` is an integer parameter and result.
- The context menu (`GenericMenu`, `ContextMenu`, the context-click event) and
  `Process.Start` are out. The model records the documentation link the menu would offer.
- Reflection is out. The assembly scan, attribute lookup, `GetConstructor`/`Invoke`,
  `GetFields`, `IsAssignableFrom` and `GetType` are replaced by per-type descriptors and a type table.
- Object identity is out. A constructor's fresh instance is a value, so "a new instance
  of the same type" and the old one are told apart only by their contents.
- Floating point is out. Heights and rectangles are integers, and the line height is 18.
- Hand-written editors are host functions. `Host.customHeight` gives the height one asks
  for and the value measuring leaves; `Host.customDraw` gives the value its drawing
  leaves. What they draw is not modelled. Overrides of `GetHeight` and `OnGUI` in
  subclasses of the generated editor are not modelled; the base versions (0 and nothing)
  are.
- Exception messages are out; exceptions are error variants. Both constructor checks
  throw with the parameter name `constructor`, which is not modelled.
- The attribute's own null check on the root type is out. A marker always names a root.
- The static cache is an explicit parameter and result of `Init`.
- Assigning `managedReferenceValue` is modelled as replacing the value the property
  resolves to.
- Text.ParseInt32: accepts only non-empty runs of ASCII digits up to 2^31-1. `Convert.ToInt32` also accepts a sign
  and surrounding whitespace, and it returns negative numbers. These texts are treated as malformed,
  because the host never writes them into a path. A negative index, which would make the
  enumerator loop run zero times and read `Current` before `MoveNext`, is not modelled.
- ObjectGraph.FindProperty: with two properties of one level equal up to case,
  `GetProperty` with `IgnoreCase` throws `AmbiguousMatchException`; the model returns the
  first declared one instead. `ObjectGraph.FindPropertyIsOnlyMatch` covers levels where
  no two properties are equal up to case, which is where the two agree.
- PropertyEditors.GetPropertyHeight: takes the value the property holds as input rather
  than resolving the property's path; it assumes that path resolves to the property
  itself. `PropertyEditors.InitAt` models `Init` through the path, with its
  malformed-index exception and nested-list resolution. The same holds for
  `PropertyEditors.DisplayPropertyGui`, `Picker.PickerHeight`, `Picker.PickerAnswer`,
  `Picker.DrawerHeight` and `Picker.DrawerOnGui`, which reconcile through these two.
- PropertyEditors.GetPropertyHeight: a listed field is assumed to have a serialized
  property. `CreateAutoEditor` lists every public or `[SerializeField]` field, including
  ones Unity does not serialize (`readonly`, `[NonSerialized]`, or of a type it cannot
  serialize); for those `FindPropertyRelative` gives null, which the host is then asked
  to measure and draw. The model takes `fieldHeight` as defined for every listed name,
  so `GetPropertyHeight`, `DisplayPropertyGui` and `Layout.RelativePropertyFields` do
  not model that null.
- Text.Lower: folds ASCII letters only; .NET's `IgnoreCase` uses culture-invariant folding of all of Unicode.
- `GetValue_Imp` via `f.GetValue`/`p.GetValue` returns what the graph stores. Property
  getters with side effects or exceptions are not modelled.
