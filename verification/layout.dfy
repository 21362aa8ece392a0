/** Editor layout arithmetic of `EditorUtils`: single-line rectangles, moving down one line,
    and stacking the fields of a property one below the other. Unity's float geometry is
    modelled with integers. */
module Layout {
  /** `EditorGUIUtility.singleLineHeight`, in whole pixels. */
  const LineHeight: int := 18

  datatype Rect = Rect(x: int, y: int, width: int, height: int)

  /** `SingleLineRect`: the same position and width, one line high. */
  function SingleLineRect(r: Rect): Rect
  {
    Rect(r.x, r.y, r.width, LineHeight)
  }

  /** `AdvanceOneLine`: the same rectangle one line further down. */
  function AdvanceOneLine(r: Rect): Rect
  {
    r.(y := r.y + LineHeight)
  }

  /** The single-line rectangle `delta` pixels below the top of `r`. */
  function LineBelow(r: Rect, delta: int): Rect
  {
    SingleLineRect(r).(y := r.y + delta)
  }

  /** `RelativePropertyFieldsHeight`: the heights of the fields at `paths`, aggregated from
      0 in order. */
  function FieldsHeight(height: string -> int, paths: seq<string>): int
  {
    Aggregate(0, height, paths)
  }

  /** `Aggregate` with `(total, path) => total + height(path)`. */
  function Aggregate(total: int, height: string -> int, paths: seq<string>): int
    decreases |paths|
  {
    if |paths| == 0 then total else Aggregate(total + height(paths[0]), height, paths[1..])
  }

  /** The total height of the fields at `paths`, last field added last. */
  function SumHeights(height: string -> int, paths: seq<string>): int
    decreases |paths|
  {
    if |paths| == 0 then 0
    else SumHeights(height, paths[..|paths| - 1]) + height(paths[|paths| - 1])
  }

  lemma {:induction false} SumHeightsCons(height: string -> int, p: string, rest: seq<string>)
    ensures SumHeights(height, [p] + rest) == height(p) + SumHeights(height, rest)
    decreases |rest|
  {
    if |rest| > 0 {
      var s := [p] + rest;
      assert s[..|s| - 1] == [p] + rest[..|rest| - 1];
      SumHeightsCons(height, p, rest[..|rest| - 1]);
    } else {
      assert [p] + rest == [p];
      assert [p][..0] == [];
    }
  }

  /** Aggregating from `total` adds the sum of the heights to `total`. */
  lemma {:induction false} AggregateIsSum(total: int, height: string -> int, paths: seq<string>)
    ensures Aggregate(total, height, paths) == total + SumHeights(height, paths)
    decreases |paths|
  {
    if |paths| > 0 {
      AggregateIsSum(total + height(paths[0]), height, paths[1..]);
      SumHeightsCons(height, paths[0], paths[1..]);
      assert [paths[0]] + paths[1..] == paths;
    }
  }

  /** The height of no fields is 0, and the height of two lists of fields one after the
      other is the sum of their heights. */
  lemma FieldsHeightConcat(height: string -> int, a: seq<string>, b: seq<string>)
    ensures FieldsHeight(height, []) == 0
    ensures FieldsHeight(height, a + b) == FieldsHeight(height, a) + FieldsHeight(height, b)
  {
    AggregateIsSum(0, height, a);
    AggregateIsSum(0, height, b);
    AggregateIsSum(0, height, a + b);
    SumHeightsConcat(height, a, b);
  }

  lemma {:induction false} SumHeightsConcat(height: string -> int, a: seq<string>, b: seq<string>)
    ensures SumHeights(height, a + b) == SumHeights(height, a) + SumHeights(height, b)
    decreases |b|
  {
    if |b| == 0 {
      assert a + b == a;
    } else {
      var ab := a + b;
      assert ab[..|ab| - 1] == a + b[..|b| - 1];
      assert ab[|ab| - 1] == b[|b| - 1];
      SumHeightsConcat(height, a, b[..|b| - 1]);
    }
  }

  /** `RelativePropertyFields`: each field is drawn in a one-line rectangle that starts
      where the fields before it end; the result is the one-line rectangle just below the
      last field. */
  method RelativePropertyFields(height: string -> int, paths: seq<string>, position: Rect)
    returns (r: Rect, drawn: seq<Rect>)
    ensures r == LineBelow(position, FieldsHeight(height, paths))
    ensures |drawn| == |paths|
    ensures forall i :: 0 <= i < |paths| ==> drawn[i] == LineBelow(position, SumHeights(height, paths[..i]))
  {
    r := SingleLineRect(position);
    drawn := [];
    var i := 0;
    while i < |paths|
      invariant 0 <= i <= |paths|
      invariant r == LineBelow(position, SumHeights(height, paths[..i]))
      invariant |drawn| == i
      invariant forall j :: 0 <= j < i ==> drawn[j] == LineBelow(position, SumHeights(height, paths[..j]))
    {
      drawn := drawn + [r];
      assert paths[..i + 1][..i] == paths[..i];
      r := r.(y := r.y + height(paths[i]));
      i := i + 1;
    }
    assert paths[..i] == paths;
    AggregateIsSum(0, height, paths);
  }
}
