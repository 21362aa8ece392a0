/** The string operations of the .NET base library that the path resolver relies on:
    `String.Replace`, `String.Split(char)`, `String.IndexOf`, `String.Contains`,
    `Convert.ToInt32` on a decimal string, and the case folding used by reflection's
    `IgnoreCase` lookups. Strings are sequences of characters. */
module Text {
  import opened Results

  /** True when `pat` occurs in `s` starting at position `i`. */
  predicate OccursAt(s: string, pat: string, i: nat)
  {
    i + |pat| <= |s| && s[i..i + |pat|] == pat
  }

  /** `s.Replace(pat, rep)`: one left-to-right pass that replaces every
      non-overlapping occurrence of `pat`. .NET throws for an empty `pat`. */
  function ReplaceAll(s: string, pat: string, rep: string): string
    requires |pat| > 0
    decreases |s|
  {
    if |s| == 0 then ""
    else if OccursAt(s, pat, 0) then rep + ReplaceAll(s[|pat|..], pat, rep)
    else [s[0]] + ReplaceAll(s[1..], pat, rep)
  }

  /** A string in which `pat` never occurs is left as it is. */
  lemma {:induction false} ReplaceAllWithoutOccurrence(s: string, pat: string, rep: string)
    requires |pat| > 0
    requires forall i :: 0 <= i < |s| ==> !OccursAt(s, pat, i)
    ensures ReplaceAll(s, pat, rep) == s
    decreases |s|
  {
    if |s| > 0 {
      assert !OccursAt(s, pat, 0);
      forall i | 0 <= i < |s[1..]|
        ensures !OccursAt(s[1..], pat, i)
      {
        assert !OccursAt(s, pat, i + 1);
        if i + |pat| <= |s[1..]| {
          assert s[1..][i..i + |pat|] == s[i + 1..i + 1 + |pat|];
        }
      }
      ReplaceAllWithoutOccurrence(s[1..], pat, rep);
      assert s == [s[0]] + s[1..];
    }
  }

  /** A prefix that cannot start an occurrence (it has no copy of `pat`'s first
      character) is copied unchanged and the pass resumes after it. */
  lemma {:induction false} ReplaceAllSkipsPrefix(x: string, y: string, pat: string, rep: string)
    requires |pat| > 0
    requires pat[0] !in x
    ensures ReplaceAll(x + y, pat, rep) == x + ReplaceAll(y, pat, rep)
    decreases |x|
  {
    if |x| > 0 {
      var s := x + y;
      assert s[0] == x[0];
      if |pat| <= |s| {
        assert s[0..|pat|][0] == x[0];
      }
      assert !OccursAt(s, pat, 0);
      assert s[1..] == x[1..] + y;
      assert pat[0] !in x[1..] by {
        forall i | 0 <= i < |x[1..]| ensures x[1..][i] != pat[0] {
          assert x[1..][i] == x[i + 1];
        }
      }
      ReplaceAllSkipsPrefix(x[1..], y, pat, rep);
      assert ReplaceAll(s, pat, rep) == [s[0]] + ReplaceAll(s[1..], pat, rep);
      assert x + ReplaceAll(y, pat, rep) == [x[0]] + (x[1..] + ReplaceAll(y, pat, rep));
    } else {
      assert x + y == y;
    }
  }

  /** An occurrence at the very front is replaced and the pass resumes after it. */
  lemma ReplaceAllAtOccurrence(pat: string, y: string, rep: string)
    requires |pat| > 0
    ensures ReplaceAll(pat + y, pat, rep) == rep + ReplaceAll(y, pat, rep)
  {
    var s := pat + y;
    assert s[0..|pat|] == pat;
    assert s[|pat|..] == y;
  }

  /** `s.IndexOf(c)` for a character known to occur: the first position holding `c`. */
  function IndexOf(s: string, c: char): (k: nat)
    requires c in s
    ensures k < |s| && s[k] == c
    ensures c !in s[..k]
  {
    if s[0] == c then 0
    else
      var k' := IndexOf(s[1..], c);
      assert s[..k' + 1] == [s[0]] + s[1..][..k'];
      k' + 1
  }

  /** The first `c` of `x + y` is the first character of `y` when `x` has none. */
  lemma IndexOfAfter(x: string, y: string, c: char)
    requires c !in x && |y| > 0 && y[0] == c
    ensures c in x + y
    ensures IndexOf(x + y, c) == |x|
  {
    assert (x + y)[|x|] == c;
  }

  /** `s.Split(sep)`: the pieces between separators, empty pieces included;
      there is always at least one piece. */
  function Split(s: string, sep: char): (parts: seq<string>)
    ensures |parts| >= 1
    ensures forall i :: 0 <= i < |parts| ==> sep !in parts[i]
    decreases |s|
  {
    if sep !in s then [s]
    else
      var k := IndexOf(s, sep);
      [s[..k]] + Split(s[k + 1..], sep)
  }

  /** The inverse of `Split`: the pieces glued back with the separator. */
  function Join(parts: seq<string>, sep: char): string
  {
    if |parts| == 0 then ""
    else if |parts| == 1 then parts[0]
    else parts[0] + [sep] + Join(parts[1..], sep)
  }

  /** Splitting and joining again gives back the original string. */
  lemma {:induction false} JoinSplit(s: string, sep: char)
    ensures Join(Split(s, sep), sep) == s
    decreases |s|
  {
    if sep in s {
      var k := IndexOf(s, sep);
      JoinSplit(s[k + 1..], sep);
      var rest := Split(s[k + 1..], sep);
      assert Split(s, sep) == [s[..k]] + rest;
      assert ([s[..k]] + rest)[1..] == rest;
      assert s == s[..k] + [sep] + s[k + 1..];
    }
  }

  /** Joining separator-free pieces and splitting again gives back the pieces. */
  lemma {:induction false} SplitJoin(parts: seq<string>, sep: char)
    requires |parts| >= 1
    requires forall i :: 0 <= i < |parts| ==> sep !in parts[i]
    ensures Split(Join(parts, sep), sep) == parts
    decreases |parts|
  {
    if |parts| > 1 {
      var p := parts[0];
      var tail := Join(parts[1..], sep);
      var s := p + [sep] + tail;
      assert Join(parts, sep) == s;
      assert s[|p|] == sep;
      var k := IndexOf(s, sep);
      assert s[..k] == p;
      assert s[k + 1..] == tail;
      SplitJoin(parts[1..], sep);
      assert parts == [p] + parts[1..];
    } else {
      assert sep !in parts[0];
    }
  }

  /** `s.Replace(c, "")` for every character of `drop`: the characters of `s` outside `drop`, in order. */
  function Without(s: string, drop: set<char>): (r: string)
    ensures forall i :: 0 <= i < |r| ==> r[i] !in drop
    ensures |r| <= |s|
  {
    if |s| == 0 then ""
    else (if s[0] in drop then "" else [s[0]]) + Without(s[1..], drop)
  }

  /** Removing characters that do not occur changes nothing. */
  lemma {:induction false} WithoutNothingToDrop(s: string, drop: set<char>)
    requires forall i :: 0 <= i < |s| ==> s[i] !in drop
    ensures Without(s, drop) == s
  {
    if |s| > 0 {
      WithoutNothingToDrop(s[1..], drop);
      assert s == [s[0]] + s[1..];
    }
  }

  /** Removing characters works piecewise over a concatenation. */
  lemma {:induction false} WithoutConcat(a: string, b: string, drop: set<char>)
    ensures Without(a + b, drop) == Without(a, drop) + Without(b, drop)
  {
    if |a| > 0 {
      assert (a + b)[1..] == a[1..] + b;
      WithoutConcat(a[1..], b, drop);
    } else {
      assert a + b == b;
    }
  }

  predicate IsDigit(c: char)
  {
    '0' <= c <= '9'
  }

  predicate AllDigits(s: string)
  {
    forall i :: 0 <= i < |s| ==> IsDigit(s[i])
  }

  /** A digit string holds no character other than digits. */
  lemma DigitsExclude(s: string, c: char)
    requires AllDigits(s) && !IsDigit(c)
    ensures c !in s
  {
  }

  function DigitValue(c: char): nat
    requires IsDigit(c)
  {
    c as int - '0' as int
  }

  function DigitChar(d: nat): (c: char)
    requires d < 10
    ensures IsDigit(c) && DigitValue(c) == d
  {
    (('0' as int) + d) as char
  }

  /** The value of a decimal digit string, most significant digit first (0 for the empty string). */
  function NumberValue(s: string): nat
    requires AllDigits(s)
  {
    if |s| == 0 then 0
    else 10 * NumberValue(s[..|s| - 1]) + DigitValue(s[|s| - 1])
  }

  /** The shortest decimal text of `n`. */
  function DecimalText(n: nat): (s: string)
    ensures |s| >= 1 && AllDigits(s)
  {
    if n < 10 then [DigitChar(n)]
    else DecimalText(n / 10) + [DigitChar(n % 10)]
  }

  /** Reading back the decimal text of `n` gives `n`. */
  lemma {:induction false} NumberValueOfDecimalText(n: nat)
    ensures NumberValue(DecimalText(n)) == n
  {
    var s := DecimalText(n);
    if n >= 10 {
      NumberValueOfDecimalText(n / 10);
      assert s[..|s| - 1] == DecimalText(n / 10);
    }
  }

  function Pow10(k: nat): (p: nat)
    ensures p >= 1
  {
    if k == 0 then 1 else 10 * Pow10(k - 1)
  }

  /** Digit strings concatenate like numbers: the left part is shifted by the length of the right part. */
  lemma {:induction false} NumberValueConcat(a: string, b: string)
    requires AllDigits(a) && AllDigits(b)
    ensures AllDigits(a + b)
    ensures NumberValue(a + b) == NumberValue(a) * Pow10(|b|) + NumberValue(b)
    decreases |b|
  {
    assert AllDigits(a + b) by {
      forall i | 0 <= i < |a + b| ensures IsDigit((a + b)[i]) {
        if i < |a| { assert (a + b)[i] == a[i]; } else { assert (a + b)[i] == b[i - |a|]; }
      }
    }
    if |b| == 0 {
      assert a + b == a;
    } else {
      var b' := b[..|b| - 1];
      var last := b[|b| - 1];
      assert (a + b)[..|a + b| - 1] == a + b';
      assert (a + b)[|a + b| - 1] == last;
      NumberValueConcat(a, b');
      var x, y, d, p := NumberValue(a), NumberValue(b'), DigitValue(last), Pow10(|b'|);
      assert NumberValue(a + b) == 10 * NumberValue(a + b') + d;
      assert NumberValue(b) == 10 * y + d;
      assert Pow10(|b|) == 10 * p;
      ShiftByOneDigit(x, y, d, p);
    }
  }

  lemma ShiftByOneDigit(x: int, y: int, d: int, p: int)
    ensures 10 * (x * p + y) + d == x * (10 * p) + (10 * y + d)
  {
  }

  const Int32Max: nat := 2147483647

  /** `Convert.ToInt32(s)` on the texts a property path can hold: a non-empty run of
      decimal digits whose value fits in a signed 32-bit integer; anything else is
      the `FormatException` / `OverflowException` the call would throw. */
  function ParseInt32(s: string): Option<nat>
  {
    if |s| > 0 && AllDigits(s) && NumberValue(s) <= Int32Max then Some(NumberValue(s)) else None
  }

  /** Every index a 32-bit integer can hold survives printing and parsing. */
  lemma ParseInt32OfDecimalText(n: nat)
    requires n <= Int32Max
    ensures ParseInt32(DecimalText(n)) == Some(n)
  {
    NumberValueOfDecimalText(n);
  }

  /** Two digit strings read as one number: the left one shifted past the right one. */
  lemma ParseInt32Concat(a: string, b: string)
    requires |a| > 0 && AllDigits(a) && AllDigits(b)
    requires NumberValue(a) * Pow10(|b|) + NumberValue(b) <= Int32Max
    ensures ParseInt32(a + b) == Some(NumberValue(a) * Pow10(|b|) + NumberValue(b))
  {
    NumberValueConcat(a, b);
  }

  /** Case folding of the ASCII letters. */
  function LowerChar(c: char): char
  {
    if 'A' <= c <= 'Z' then (c as int + 32) as char else c
  }

  /** `s` with its capital ASCII letters folded: each capital becomes its own small
      letter, no capital is left, and every other character is kept in place. */
  function Lower(s: string): (r: string)
    ensures |r| == |s|
    ensures forall i :: 0 <= i < |r| ==> !('A' <= r[i] <= 'Z')
    ensures forall i :: 0 <= i < |s| && 'A' <= s[i] <= 'Z' ==> r[i] == (s[i] as int + 32) as char && 'a' <= r[i] <= 'z'
    ensures forall i :: 0 <= i < |s| && !('A' <= s[i] <= 'Z') ==> r[i] == s[i]
  {
    seq(|s|, i requires 0 <= i < |s| => LowerChar(s[i]))
  }

  /** Folding twice folds no further, and a text is its own folding exactly when it has
      no capital letter. */
  lemma LowerIsIdempotent(s: string)
    ensures Lower(Lower(s)) == Lower(s)
    ensures Lower(s) == s <==> forall i :: 0 <= i < |s| ==> !('A' <= s[i] <= 'Z')
  {
  }

  /** The comparison reflection applies under `BindingFlags.IgnoreCase`. */
  predicate EqualsIgnoreCase(a: string, b: string)
  {
    Lower(a) == Lower(b)
  }
}
