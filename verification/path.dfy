/** `EditorUtils.GetTargetObjectWithProperty`: a serialized property path such as
    `shapes.Array.data[2].center` is rewritten, cut into segments, each segment parsed
    into a member name and an optional index, and the segments are followed from the
    target object through the object graph. */
module PropertyPath {
  import opened Results
  import opened Text
  import opened ObjectGraph

  /** One step of a path: a member, or element `index` of a collection member. */
  datatype Segment = Member(name: string) | Element(name: string, index: nat)

  /** The exception `Convert.ToInt32` throws for an index text that is not a 32-bit number. */
  datatype PathError = MalformedIndex(text: string)

  /** How the host spells "element of": `items.Array.data[2]` denotes `items[2]`. */
  const ArrayData: string := ".Array.data["

  /** The first rewrite of the path: every `.Array.data[` becomes `[`. */
  function Rewrite(path: string): string
  {
    ReplaceAll(path, ArrayData, "[")
  }

  /** The index text of an element with a `[`: everything from the first `[` on, with
      every `[` and `]` removed. */
  function IndexText(e: string): string
    requires '[' in e
  {
    StripBrackets(e[IndexOf(e, '[')..])
  }

  /** An element whose index text `Convert.ToInt32` rejects: it is empty, holds a
      character other than a digit, or exceeds 2^31-1. */
  predicate MalformedSegment(e: string)
  {
    '[' in e && !(|IndexText(e)| > 0 && AllDigits(IndexText(e)) && NumberValue(IndexText(e)) <= Int32Max)
  }

  /** A path with at least one malformed element once rewritten and cut at `.`. */
  predicate MalformedPath(path: string)
  {
    exists k :: 0 <= k < |Split(Rewrite(path), '.')| && MalformedSegment(Split(Rewrite(path), '.')[k])
  }

  /** One path element: text with a `[` is a name (the text before the first `[`) and
      an index (the rest with every `[` and `]` removed, read as a number); text
      without one is a plain member name. */
  function ParseSegment(e: string): (r: Result<Segment, PathError>)
    ensures '[' !in e ==> r == Ok(Member(e))
    ensures r.Ok? && r.value.Element? ==>
              |r.value.name| < |e| && e[..|r.value.name|] == r.value.name
              && e[|r.value.name|] == '[' && '[' !in r.value.name
  {
    if '[' in e then
      var k := IndexOf(e, '[');
      var text := StripBrackets(e[k..]);
      match ParseInt32(text)
      case Some(n) => Ok(Element(e[..k], n))
      case None => Err(MalformedIndex(text))
    else Ok(Member(e))
  }

  /** A segment throws exactly when its index text is malformed, and the exception names
      that text; otherwise an indexed segment's index is the number its text spells. */
  lemma ParseSegmentFails(e: string)
    ensures ParseSegment(e).Err? <==> MalformedSegment(e)
    ensures ParseSegment(e).Err? ==> ParseSegment(e).error == MalformedIndex(IndexText(e))
    ensures ParseSegment(e).Ok? && ParseSegment(e).value.Element? ==>
              '[' in e && ParseSegment(e).value.index == NumberValue(IndexText(e))
  {
  }

  /** A path fails to parse exactly when one of its elements is malformed. */
  lemma ParsePathFails(path: string)
    ensures ParsePath(path).Err? <==> MalformedPath(path)
  {
    var els := Split(Rewrite(path), '.');
    forall k | 0 <= k < |els|
      ensures ParseSegment(els[k]).Err? <==> MalformedSegment(els[k])
    {
      ParseSegmentFails(els[k]);
    }
  }

  /** `a[x]` makes `Convert.ToInt32` throw on the index text `x`. */
  lemma LetterIndexIsMalformed()
    ensures ParseSegment("a[x]") == Err(MalformedIndex("x"))
  {
    var e := "a[x]";
    assert e[1] == '[' && e[0] != '[';
    assert e[1..] == "[" + ("x" + "]");
    StripBracketsConcat("[", "x" + "]");
    StripBracketsConcat("x", "]");
    assert StripBrackets("[") == "" && StripBrackets("x") == "x" && StripBrackets("]") == "";
    assert IndexText(e) == "x";
  }

  /** The index text of a segment: `Replace("[", "")` then `Replace("]", "")`. */
  function StripBrackets(s: string): string
  {
    Without(Without(s, {'['}), {']'})
  }

  lemma StripBracketsConcat(a: string, b: string)
    ensures StripBrackets(a + b) == StripBrackets(a) + StripBrackets(b)
  {
    WithoutConcat(a, b, {'['});
    WithoutConcat(Without(a, {'['}), Without(b, {'['}), {']'});
  }

  /** A bracketed run of digits strips to the digits. */
  lemma StripBracketedDigits(d: string)
    requires AllDigits(d)
    ensures StripBrackets("[" + d + "]") == d
  {
    DigitsExclude(d, '[');
    DigitsExclude(d, ']');
    var closed := d + "]";
    assert "[" + d + "]" == "[" + closed;
    WithoutConcat("[", closed, {'['});
    assert Without("[", {'['}) == "";
    assert forall i :: 0 <= i < |closed| ==> closed[i] != '[';
    WithoutNothingToDrop(closed, {'['});
    assert Without("[" + d + "]", {'['}) == closed;
    WithoutConcat(d, "]", {']'});
    WithoutNothingToDrop(d, {']'});
    assert Without("]", {']'}) == "";
    assert Without(closed, {']'}) == d;
  }

  /** All elements of a path, in order; the first malformed one is the error. */
  function ParseSegments(elements: seq<string>): (r: Result<seq<Segment>, PathError>)
    ensures r.Ok? ==> |r.value| == |elements|
    ensures r.Ok? <==> forall i :: 0 <= i < |elements| ==> ParseSegment(elements[i]).Ok?
    ensures r.Ok? ==> forall i :: 0 <= i < |elements| ==> ParseSegment(elements[i]) == Ok(r.value[i])
    ensures r.Err? ==> exists k :: 0 <= k < |elements| && ParseSegment(elements[k]) == Err(r.error)
                                   && forall j :: 0 <= j < k ==> ParseSegment(elements[j]).Ok?
  {
    if |elements| == 0 then Ok([])
    else
      match ParseSegment(elements[0])
      case Err(e) => Err(e)
      case Ok(s) =>
        var rest := ParseSegments(elements[1..]);
        assert forall i :: 1 <= i < |elements| ==> elements[i] == elements[1..][i - 1];
        match rest
        case Err(e) => Err(e)
        case Ok(ss) => Ok([s] + ss)
  }

  /** The rewritten path cut at every `.` and parsed. */
  function ParsePath(path: string): Result<seq<Segment>, PathError>
  {
    ParseSegments(Split(Rewrite(path), '.'))
  }

  /** One segment followed from a value: `GetValue_Imp` with or without an index. */
  function Step(tt: TypeTable, v: Value, s: Segment): Value
  {
    match s
    case Member(n) => GetValue(tt, v, n)
    case Element(n, i) => GetElement(tt, v, n, i)
  }

  /** The segments followed in order from `v`. */
  function Walk(tt: TypeTable, v: Value, segs: seq<Segment>): Value
    decreases |segs|
  {
    if |segs| == 0 then v else Walk(tt, Step(tt, v, segs[0]), segs[1..])
  }

  /** `GetTargetObjectWithProperty`: the value the path reaches from the target object,
      or the error a malformed index raises. */
  function GetTargetObjectWithProperty(tt: TypeTable, target: Value, path: string): (r: Result<Value, PathError>)
    ensures r.Err? <==> MalformedPath(path)
  {
    ParsePathFails(path);
    match ParsePath(path)
    case Err(e) => Err(e)
    case Ok(segs) => Ok(Walk(tt, target, segs))
  }

  /** Nothing is reached from `null`. */
  lemma {:induction false} WalkFromNull(tt: TypeTable, segs: seq<Segment>)
    ensures Walk(tt, Null, segs) == Null
  {
    if |segs| > 0 {
      WalkFromNull(tt, segs[1..]);
    }
  }

  /** Following a path is following its first part, then the rest from where it ended. */
  lemma {:induction false} WalkConcat(tt: TypeTable, v: Value, a: seq<Segment>, b: seq<Segment>)
    ensures Walk(tt, v, a + b) == Walk(tt, Walk(tt, v, a), b)
    decreases |a|
  {
    if |a| == 0 {
      assert a + b == b;
    } else {
      assert (a + b)[1..] == a[1..] + b;
      WalkConcat(tt, Step(tt, v, a[0]), a[1..], b);
    }
  }

  /** Once some prefix of the path reaches `null`, the whole path resolves to `null`. */
  lemma NullPrefixGivesNull(tt: TypeTable, v: Value, segs: seq<Segment>, k: nat)
    requires k <= |segs|
    requires Walk(tt, v, segs[..k]) == Null
    ensures Walk(tt, v, segs) == Null
  {
    assert segs == segs[..k] + segs[k..];
    WalkConcat(tt, v, segs[..k], segs[k..]);
    WalkFromNull(tt, segs[k..]);
  }

  /** A `null` target resolves to `null` whatever the (well-formed) path. */
  lemma NullTargetGivesNull(tt: TypeTable, path: string)
    requires ParsePath(path).Ok?
    ensures GetTargetObjectWithProperty(tt, Null, path) == Ok(Null)
  {
    WalkFromNull(tt, ParsePath(path).value);
  }

  /** A name the host can put in a path: no `.` and no `[`. */
  predicate PlainName(n: string)
  {
    '.' !in n && '[' !in n
  }

  /** A segment with a name before its first `[` parses to that name and to the index
      its bracket-stripped rest denotes. */
  lemma ParseSegmentAfterName(n: string, rest: string, index: nat)
    requires '[' !in n && |rest| > 0 && rest[0] == '['
    requires ParseInt32(StripBrackets(rest)) == Some(index)
    ensures ParseSegment(n + rest) == Ok(Element(n, index))
  {
    var e := n + rest;
    IndexOfAfter(n, rest, '[');
    assert e[..|n|] == n;
    assert e[|n|..] == rest;
  }

  /** Nested indexes are not nested: all brackets of a segment are removed and the
      digits read as one number, so `a[i][j]` denotes element `i * 10^|j| + j` of `a`. */
  lemma NestedIndexesConcatenate(n: string, a: string, b: string)
    requires PlainName(n) && |a| > 0 && |b| > 0 && AllDigits(a) && AllDigits(b)
    requires NumberValue(a) * Pow10(|b|) + NumberValue(b) <= Int32Max
    ensures ParseSegment(n + ("[" + a + "][" + b + "]"))
            == Ok(Element(n, NumberValue(a) * Pow10(|b|) + NumberValue(b)))
  {
    var rest := "[" + a + "][" + b + "]";
    var index := NumberValue(a) * Pow10(|b|) + NumberValue(b);
    assert ParseInt32(StripBrackets(rest)) == Some(index) by {
      StripNestedBrackets(a, b);
      ParseInt32Concat(a, b);
    }
    ParseSegmentAfterName(n, rest, index);
  }

  lemma StripNestedBrackets(a: string, b: string)
    requires AllDigits(a) && AllDigits(b)
    ensures StripBrackets("[" + a + "][" + b + "]") == a + b
  {
    var ba, bb := "[" + a + "]", "[" + b + "]";
    assert "[" + a + "][" + b + "]" == ba + bb;
    StripBracketsConcat(ba, bb);
    StripBracketedDigits(a);
    StripBracketedDigits(b);
  }

  lemma NestedIndexExample()
    ensures ParseSegment("a[2][3]") == Ok(Element("a", 23))
  {
    NestedIndexText();
    NestedIndexOfDigits();
  }

  lemma NestedIndexOfDigits()
    ensures ParseSegment("a" + ("[" + "2" + "][" + "3" + "]")) == Ok(Element("a", 23))
  {
    assert NumberValue("2") == 2;
    assert NumberValue("3") == 3;
    NestedIndexesConcatenate("a", "2", "3");
  }

  lemma NestedIndexText()
    ensures "a" + ("[" + "2" + "][" + "3" + "]") == "a[2][3]"
  {
  }
}
