/** Paths as the host serializes them: a member is written by name and element `i` of a
    collection member `n` is written `n.Array.data[i]`. Rewriting, splitting and parsing
    such a path recovers the steps it was written from. */
module HostPaths {
  import opened Results
  import opened Text
  import opened ObjectGraph
  import opened PropertyPath

  /** One step of a serialized path; an element step keeps the decimal text of its index
      as the host wrote it (leading zeros included). */
  datatype HostStep = MemberStep(name: string) | ElementStep(name: string, digits: string)

  /** A step the host can write: a plain name and, for an element, a non-empty run of
      digits whose value fits a 32-bit index. */
  predicate WellFormedStep(s: HostStep)
  {
    PlainName(s.name)
    && (s.ElementStep? ==> |s.digits| > 0 && AllDigits(s.digits) && NumberValue(s.digits) <= Int32Max)
  }

  predicate WellFormedSteps(steps: seq<HostStep>)
  {
    |steps| >= 1 && forall i :: 0 <= i < |steps| ==> WellFormedStep(steps[i])
  }

  /** The segment a step denotes. */
  function Meaning(s: HostStep): Segment
    requires WellFormedStep(s)
  {
    match s
    case MemberStep(n) => Member(n)
    case ElementStep(n, d) => Element(n, NumberValue(d))
  }

  function Meanings(steps: seq<HostStep>): (r: seq<Segment>)
    requires forall i :: 0 <= i < |steps| ==> WellFormedStep(steps[i])
    ensures |r| == |steps|
    ensures forall i :: 0 <= i < |steps| ==> r[i] == Meaning(steps[i])
  {
    seq(|steps|, i requires 0 <= i < |steps| => Meaning(steps[i]))
  }

  /** How the host writes one step. */
  function HostText(s: HostStep): string
  {
    match s
    case MemberStep(n) => n
    case ElementStep(n, d) => n + ArrayData + d + "]"
  }

  /** How the host writes a whole path: the steps joined by `.`. */
  function HostPath(steps: seq<HostStep>): string
    requires |steps| >= 1
  {
    if |steps| == 1 then HostText(steps[0])
    else HostText(steps[0]) + "." + HostPath(steps[1..])
  }

  /** A step after the `.Array.data[` rewrite: `n` or `n[d]`. */
  function ShortText(s: HostStep): string
  {
    match s
    case MemberStep(n) => n
    case ElementStep(n, d) => n + "[" + d + "]"
  }

  function ShortTexts(steps: seq<HostStep>): (r: seq<string>)
    ensures |r| == |steps|
    ensures forall i :: 0 <= i < |steps| ==> r[i] == ShortText(steps[i])
  {
    seq(|steps|, i requires 0 <= i < |steps| => ShortText(steps[i]))
  }

  /** No serialized path has a `[` among its first eleven characters: the first `[`
      of an element step follows its name and `.Array.data`. */
  lemma {:induction false} HostPathOpensNoBracketEarly(steps: seq<HostStep>)
    requires WellFormedSteps(steps)
    ensures forall i :: 0 <= i < |HostPath(steps)| && i <= 10 ==> HostPath(steps)[i] != '['
    decreases |steps|
  {
    var s := steps[0];
    var p := HostPath(steps);
    assert WellFormedStep(s);
    if |steps| == 1 {
      if s.ElementStep? {
        assert p == s.name + ArrayData + (s.digits + "]");
        forall i | 0 <= i < |p| && i <= 10 ensures p[i] != '[' {
          if i >= |s.name| {
            assert p[i] == ArrayData[i - |s.name|];
          }
        }
      }
    } else {
      var rest := steps[1..];
      assert WellFormedSteps(rest) by {
        forall i | 0 <= i < |rest| ensures WellFormedStep(rest[i]) {
          assert rest[i] == steps[i + 1];
        }
      }
      HostPathOpensNoBracketEarly(rest);
      var t := HostPath(rest);
      var h := HostText(s);
      assert p == h + ("." + t);
      forall i | 0 <= i < |p| && i <= 10 ensures p[i] != '[' {
        if s.ElementStep? {
          assert h == s.name + ArrayData + (s.digits + "]");
          if i < |s.name| {
            assert p[i] == s.name[i];
          } else {
            assert p[i] == ArrayData[i - |s.name|];
          }
        } else if i < |h| {
          assert p[i] == s.name[i];
        } else if i > |h| {
          assert p[i] == t[i - |h| - 1];
        }
      }
    }
  }

  /** A `.` followed by text with no early `[` cannot start `.Array.data[`, so the
      rewrite keeps it. */
  lemma DotSurvivesRewrite(y: string)
    requires forall i :: 0 <= i < |y| && i <= 10 ==> y[i] != '['
    ensures Rewrite("." + y) == "." + Rewrite(y)
  {
    var s := "." + y;
    assert !OccursAt(s, ArrayData, 0) by {
      if |s| >= 12 {
        assert s[0..12][11] == y[10];
      }
    }
    assert s[1..] == y;
  }

  /** The rewrite turns the host's text of a step into its short text and resumes after it. */
  lemma RewriteStep(s: HostStep, tail: string)
    requires WellFormedStep(s)
    ensures Rewrite(HostText(s) + tail) == ShortText(s) + Rewrite(tail)
  {
    match s
    case MemberStep(n) =>
      ReplaceAllSkipsPrefix(n, tail, ArrayData, "[");
    case ElementStep(n, d) =>
      RewriteElementText(n, d, tail);
  }

  lemma RewriteElementText(n: string, d: string, tail: string)
    requires PlainName(n) && AllDigits(d)
    ensures Rewrite(n + ArrayData + d + "]" + tail) == n + "[" + d + "]" + Rewrite(tail)
  {
    var closed := d + "]";
    DigitsExclude(d, '.');
    assert '.' !in closed;
    assert n + ArrayData + d + "]" + tail == n + (ArrayData + (closed + tail));
    ReplaceAllSkipsPrefix(n, ArrayData + (closed + tail), ArrayData, "[");
    ReplaceAllAtOccurrence(ArrayData, closed + tail, "[");
    ReplaceAllSkipsPrefix(closed, tail, ArrayData, "[");
    assert n + "[" + d + "]" + Rewrite(tail) == n + ("[" + (closed + Rewrite(tail)));
  }

  /** Rewriting a serialized path gives the short texts of its steps joined by `.`. */
  lemma {:induction false} RewriteHostPath(steps: seq<HostStep>)
    requires WellFormedSteps(steps)
    ensures Rewrite(HostPath(steps)) == Join(ShortTexts(steps), '.')
    decreases |steps|
  {
    assert WellFormedStep(steps[0]);
    if |steps| == 1 {
      RewriteStep(steps[0], "");
      assert HostText(steps[0]) + "" == HostText(steps[0]);
      assert Rewrite("") == "";
    } else {
      var rest := steps[1..];
      assert WellFormedSteps(rest) by {
        forall i | 0 <= i < |rest| ensures WellFormedStep(rest[i]) {
          assert rest[i] == steps[i + 1];
        }
      }
      RewriteHostPath(rest);
      RewriteHostPathCons(steps[0], rest);
      assert steps == [steps[0]] + rest;
    }
  }

  lemma RewriteHostPathCons(s: HostStep, rest: seq<HostStep>)
    requires WellFormedStep(s) && WellFormedSteps(rest)
    requires Rewrite(HostPath(rest)) == Join(ShortTexts(rest), '.')
    ensures Rewrite(HostPath([s] + rest)) == Join(ShortTexts([s] + rest), '.')
  {
    var steps := [s] + rest;
    assert steps[0] == s && steps[1..] == rest;
    HostPathOpensNoBracketEarly(rest);
    RewriteStepThenDot(s, HostPath(rest));
    var shorts := ShortTexts(steps);
    assert shorts[0] == ShortText(s);
    assert shorts[1..] == ShortTexts(rest);
  }

  /** A step followed by `.` and text with no early `[`: the step is shortened, the `.`
      kept and the text rewritten on its own. */
  lemma RewriteStepThenDot(s: HostStep, t: string)
    requires WellFormedStep(s)
    requires forall i :: 0 <= i < |t| && i <= 10 ==> t[i] != '['
    ensures Rewrite(HostText(s) + "." + t) == ShortText(s) + "." + Rewrite(t)
  {
    RewriteStep(s, "." + t);
    DotSurvivesRewrite(t);
    assert HostText(s) + "." + t == HostText(s) + ("." + t);
    assert ShortText(s) + "." + Rewrite(t) == ShortText(s) + ("." + Rewrite(t));
  }

  /** The short text of a step parses to the segment the step denotes. */
  lemma ParseShortText(s: HostStep)
    requires WellFormedStep(s)
    ensures ParseSegment(ShortText(s)) == Ok(Meaning(s))
  {
    match s
    case MemberStep(n) =>
    case ElementStep(n, d) =>
      StripBracketedDigits(d);
      assert n + "[" + d + "]" == n + ("[" + d + "]");
      ParseSegmentAfterName(n, "[" + d + "]", NumberValue(d));
  }

  /** Short texts have no `.`, so splitting at `.` separates them exactly. */
  lemma ShortTextHasNoDot(s: HostStep)
    requires WellFormedStep(s)
    ensures '.' !in ShortText(s)
  {
    if s.ElementStep? {
      DigitsExclude(s.digits, '.');
      assert ShortText(s) == s.name + "[" + s.digits + "]";
    }
  }

  /** Reading a serialized path back gives, step by step, the segments it was written from. */
  lemma HostPathRoundTrip(steps: seq<HostStep>)
    requires WellFormedSteps(steps)
    ensures ParsePath(HostPath(steps)) == Ok(Meanings(steps))
  {
    RewriteHostPath(steps);
    var shorts := ShortTexts(steps);
    forall i | 0 <= i < |shorts| ensures '.' !in shorts[i] {
      ShortTextHasNoDot(steps[i]);
    }
    SplitJoin(shorts, '.');
    forall i | 0 <= i < |shorts| ensures ParseSegment(shorts[i]) == Ok(Meanings(steps)[i]) {
      ParseShortText(steps[i]);
    }
    var r := ParseSegments(shorts);
    assert r.Ok?;
    assert r.value == Meanings(steps);
  }

  /** The host writes an index in decimal without leading zeros. */
  function Written(seg: Segment): HostStep
  {
    match seg
    case Member(n) => MemberStep(n)
    case Element(n, i) => ElementStep(n, DecimalText(i))
  }

  /** Every segment with a plain name and a 32-bit index is written so that it reads back as itself. */
  lemma WrittenMeansItself(seg: Segment)
    requires PlainName(seg.name) && (seg.Element? ==> seg.index <= Int32Max)
    ensures WellFormedStep(Written(seg)) && Meaning(Written(seg)) == seg
  {
    if seg.Element? {
      NumberValueOfDecimalText(seg.index);
    }
  }

  /** Any path of plain names and 32-bit indexes survives being written and read back. */
  lemma SegmentsRoundTrip(segs: seq<Segment>)
    requires |segs| >= 1
    requires forall i :: 0 <= i < |segs| ==> PlainName(segs[i].name)
    requires forall i :: 0 <= i < |segs| ==> segs[i].Element? ==> segs[i].index <= Int32Max
    ensures ParsePath(HostPath(seq(|segs|, i requires 0 <= i < |segs| => Written(segs[i])))) == Ok(segs)
  {
    var steps := seq(|segs|, i requires 0 <= i < |segs| => Written(segs[i]));
    forall i | 0 <= i < |segs| ensures WellFormedStep(steps[i]) && Meaning(steps[i]) == segs[i] {
      WrittenMeansItself(segs[i]);
    }
    HostPathRoundTrip(steps);
    assert Meanings(steps) == segs;
  }

  /** `items.Array.data[2].name` reads as element 2 of `items`, then its `name`. */
  lemma ArrayDataIsRewritten()
    ensures ParsePath("items.Array.data[2].name") == Ok([Element("items", 2), Member("name")])
  {
    ItemsNameRoundTrip();
    ItemsNameText();
  }

  const ItemsNameSteps: seq<HostStep> := [ElementStep("items", "2"), MemberStep("name")]

  lemma ItemsNameRoundTrip()
    ensures ParsePath(HostPath(ItemsNameSteps)) == Ok([Element("items", 2), Member("name")])
  {
    var steps := ItemsNameSteps;
    assert NumberValue("2") == 2;
    assert WellFormedStep(steps[0]) && WellFormedStep(steps[1]);
    HostPathRoundTrip(steps);
    assert Meanings(steps) == [Element("items", 2), Member("name")];
  }

  lemma ItemsNameText()
    ensures HostPath(ItemsNameSteps) == "items.Array.data[2].name"
  {
  }

  /** A list nested in a list, `a.Array.data[2].Array.data[3]`, reads as element 23 of `a`:
      the second index is not applied to the element the first one selects. */
  lemma NestedListPathExample()
    ensures ParsePath("a.Array.data[2].Array.data[3]") == Ok([Element("a", 23)])
  {
    NestedListRewrite();
    NestedListSplit();
    NestedIndexExample();
    ParseSegmentsOfOne("a[2][3]");
  }

  lemma ParseSegmentsOfOne(e: string)
    requires ParseSegment(e).Ok?
    ensures ParseSegments([e]) == Ok([ParseSegment(e).value])
  {
    var s := ParseSegment(e).value;
    assert [e][0] == e && [e][1..] == [];
    assert ParseSegments([]) == Ok([]);
    assert [s] + [] == [s];
  }

  /** The nested list path is the host's text of element 2 of `a` followed by that of
      element 3 of an unnamed member. */
  const NestedOuter: HostStep := ElementStep("a", "2")
  const NestedInner: HostStep := ElementStep("", "3")

  lemma NestedListRewrite()
    ensures Rewrite("a.Array.data[2].Array.data[3]") == "a[2][3]"
  {
    NestedListSteps();
    NestedListText();
    NestedListShortText();
  }

  lemma NestedListSteps()
    ensures Rewrite(HostText(NestedOuter) + HostText(NestedInner)) == ShortText(NestedOuter) + ShortText(NestedInner)
  {
    assert NumberValue("2") == 2 && NumberValue("3") == 3;
    assert WellFormedStep(NestedOuter) && WellFormedStep(NestedInner);
    RewriteStep(NestedInner, "");
    RewriteStep(NestedOuter, HostText(NestedInner));
    assert HostText(NestedInner) + "" == HostText(NestedInner);
    assert ShortText(NestedInner) + "" == ShortText(NestedInner);
  }

  lemma NestedListText()
    ensures HostText(NestedOuter) + HostText(NestedInner) == "a.Array.data[2].Array.data[3]"
  {
    assert HostText(NestedOuter) == "a.Array.data[2]";
    assert HostText(NestedInner) == ".Array.data[3]";
  }

  lemma NestedListShortText()
    ensures ShortText(NestedOuter) + ShortText(NestedInner) == "a[2][3]"
  {
  }

  lemma NestedListSplit()
    ensures Split("a[2][3]", '.') == ["a[2][3]"]
  {
  }

  /** ---- The `items[2].name` scenario ---- */

  const ItemTypes: TypeTable := map["Root" := TypeInfo([], ["items"], []), "Item" := TypeInfo([], ["name"], [])]
  const ItemName: Value := Obj("String", map[], None)
  const BareItem: Value := Obj("Item", map[], None)
  const NamedItem: Value := Obj("Item", map[FieldOf("Item", "name") := ItemName], None)

  /** A root whose `items` field holds a list of the given elements. */
  function RootWithItems(items: seq<Value>): Value
  {
    Obj("Root", map[FieldOf("Root", "items") := Obj("List", map[], Some(items))], None)
  }

  lemma WalkItemsName(items: seq<Value>)
    ensures |items| > 2 ==> Walk(ItemTypes, RootWithItems(items), [Element("items", 2), Member("name")])
                            == GetValue(ItemTypes, items[2], "name")
    ensures |items| <= 2 ==> Walk(ItemTypes, RootWithItems(items), [Element("items", 2), Member("name")]) == Null
  {
    var segs := [Element("items", 2), Member("name")];
    assert Levels(ItemTypes, "Root") == ["Root"];
    assert GetValue(ItemTypes, RootWithItems(items), "items") == Obj("List", map[], Some(items));
    assert segs[1..] == [Member("name")];
    WalkFromNull(ItemTypes, segs[1..]);
  }

  /** Resolving `items[2].name`: with three items the third item's name is reached; with
      two the index is past the end and the path resolves to `null`. */
  lemma ResolveItemsExample()
    ensures GetTargetObjectWithProperty(ItemTypes, RootWithItems([BareItem, BareItem, NamedItem]), "items.Array.data[2].name")
            == Ok(ItemName)
    ensures GetTargetObjectWithProperty(ItemTypes, RootWithItems([BareItem, BareItem]), "items.Array.data[2].name")
            == Ok(Null)
  {
    ArrayDataIsRewritten();
    WalkItemsName([BareItem, BareItem, NamedItem]);
    WalkItemsName([BareItem, BareItem]);
    assert Levels(ItemTypes, "Item") == ["Item"];
    assert GetValue(ItemTypes, NamedItem, "name") == ItemName;
  }
}
