/** The parts of Python's `str`, comparison and slicing semantics that the
    modelled code relies on. Characters are Unicode code points; `lower` and
    `isdigit` are modelled on their ASCII range. */
module PyText {
  import opened Wrappers

  // ---------------------------------------------------------------------
  // Characters

  predicate IsDigit(c: char) {
    '0' <= c <= '9'
  }

  function DigitValue(c: char): (d: int)
    requires IsDigit(c)
    ensures 0 <= d <= 9
  {
    c as int - '0' as int
  }

  predicate IsDigits(s: string) {
    forall i :: 0 <= i < |s| ==> IsDigit(s[i])
  }

  function LowerChar(c: char): (l: char)
    ensures 'A' <= c <= 'Z' ==> 'a' <= l <= 'z'
    ensures !('A' <= c <= 'Z') ==> l == c
  {
    if 'A' <= c <= 'Z' then (c as int - 'A' as int + 'a' as int) as char else c
  }

  /** `s.lower()` on the ASCII range. */
  function Lower(s: string): (r: string)
    ensures |r| == |s|
    ensures forall i :: 0 <= i < |s| ==> r[i] == LowerChar(s[i])
  {
    if s == [] then [] else [LowerChar(s[0])] + Lower(s[1..])
  }

  /** The characters Python's `str.split()` treats as whitespace (`str.isspace`). */
  predicate IsSpace(c: char) {
    || '\t' <= c <= '\r'
    || '\U{1c}' <= c <= '\U{1f}'
    || c == ' ' || c == '\U{85}' || c == '\U{a0}' || c == '\U{1680}'
    || '\U{2000}' <= c <= '\U{200a}'
    || c == '\U{2028}' || c == '\U{2029}' || c == '\U{202f}' || c == '\U{205f}' || c == '\U{3000}'
  }

  /** `s` with every whitespace character deleted. */
  function NoSpace(s: string): (r: string)
    ensures |r| <= |s|
  {
    if s == [] then []
    else if IsSpace(s[0]) then NoSpace(s[1..])
    else [s[0]] + NoSpace(s[1..])
  }

  lemma {:induction false} NoSpaceConcat(a: string, b: string)
    ensures NoSpace(a + b) == NoSpace(a) + NoSpace(b)
  {
    if a == [] {
      assert a + b == b;
    } else {
      assert (a + b)[0] == a[0] && (a + b)[1..] == a[1..] + b;
      NoSpaceConcat(a[1..], b);
    }
  }

  /** The pieces of a string without whitespace have none either. */
  lemma NoSpaceParts(x: string, y: string)
    requires NoSpace(x + y) == x + y
    ensures NoSpace(x) == x && NoSpace(y) == y
  {
    NoSpaceConcat(x, y);
    var nx, ny := NoSpace(x), NoSpace(y);
    assert |nx| == |x| && |ny| == |y|;
    assert nx == (x + y)[..|x|] == x;
    assert ny == (x + y)[|x|..] == y;
  }

  lemma NoSpaceEmpty()
    ensures NoSpace("") == ""
  {
  }

  lemma {:induction false} NoSpaceOfSpaceless(s: string)
    requires forall i :: 0 <= i < |s| ==> !IsSpace(s[i])
    ensures NoSpace(s) == s
  {
    if s != [] {
      NoSpaceOfSpaceless(s[1..]);
    }
  }

  // ---------------------------------------------------------------------
  // Substring test: Python's `needle in hay`

  predicate OccursAt(hay: string, needle: string, i: int) {
    0 <= i && i + |needle| <= |hay| && hay[i..i + |needle|] == needle
  }

  predicate Contains(hay: string, needle: string) {
    exists i :: 0 <= i <= |hay| - |needle| && OccursAt(hay, needle, i)
  }

  /** Python's case-insensitive `needle.lower() in hay.lower()`. */
  predicate ContainsIgnoringCase(hay: string, needle: string) {
    Contains(Lower(hay), Lower(needle))
  }

  // ---------------------------------------------------------------------
  // String ordering: Python compares strings code point by code point

  predicate StrLess(a: string, b: string) {
    if a == [] then b != []
    else if b == [] then false
    else a[0] < b[0] || (a[0] == b[0] && StrLess(a[1..], b[1..]))
  }

  lemma {:induction false} StrLessIrreflexive(a: string)
    ensures !StrLess(a, a)
  {
    if a != [] {
      StrLessIrreflexive(a[1..]);
    }
  }

  lemma {:induction false} StrLessTransitive(a: string, b: string, c: string)
    requires StrLess(a, b) && StrLess(b, c)
    ensures StrLess(a, c)
  {
    if a != [] && b != [] && c != [] && a[0] == b[0] == c[0] {
      StrLessTransitive(a[1..], b[1..], c[1..]);
    }
  }

  lemma {:induction false} StrLessTotal(a: string, b: string)
    ensures a == b || StrLess(a, b) || StrLess(b, a)
  {
    if a != [] && b != [] && a[0] == b[0] {
      StrLessTotal(a[1..], b[1..]);
      if a[1..] == b[1..] {
        assert a == [a[0]] + a[1..] && b == [b[0]] + b[1..];
      }
    }
  }

  // ---------------------------------------------------------------------
  // Scalar values held in records: Python `int` (and prices as integer pence) or `str`

  datatype Value = Num(n: int) | Str(s: string)

  /** A JSON-style record: a Python dictionary from field names to values. */
  type Record = map<string, Value>

  predicate SameKind(x: Value, y: Value) {
    x.Num? == y.Num?
  }

  /** Python's `x < y` on two values of the same kind. Python raises TypeError
      when an int meets a str; the callers check for that first, and here the
      order is completed by putting numbers before strings. */
  predicate Less(x: Value, y: Value) {
    match (x, y)
    case (Num(a), Num(b)) => a < b
    case (Str(a), Str(b)) => StrLess(a, b)
    case (Num(_), Str(_)) => true
    case (Str(_), Num(_)) => false
  }

  lemma LessIrreflexive(x: Value)
    ensures !Less(x, x)
  {
    if x.Str? {
      StrLessIrreflexive(x.s);
    }
  }

  lemma LessTransitive(x: Value, y: Value, z: Value)
    requires Less(x, y) && Less(y, z)
    ensures Less(x, z)
  {
    if x.Str? && y.Str? && z.Str? {
      StrLessTransitive(x.s, y.s, z.s);
    }
  }

  lemma LessTotal(x: Value, y: Value)
    ensures x == y || Less(x, y) || Less(y, x)
  {
    if x.Str? && y.Str? {
      StrLessTotal(x.s, y.s);
    }
  }

  /** Python's `x > y`: TypeError unless both sides are numbers or both strings. */
  function Greater(x: Value, y: Value): (r: Result<bool>)
    ensures r.Err? <==> !SameKind(x, y)
    ensures r.Ok? ==> (r.value <==> Less(y, x))
  {
    if SameKind(x, y) then Ok(Less(y, x)) else Err(TypeError)
  }

  // ---------------------------------------------------------------------
  // Slicing: Python's `s[:k]`, where a negative `k` counts from the end

  function Take<T>(s: seq<T>, k: int): (r: seq<T>)
    ensures 0 <= k ==> |r| == if k < |s| then k else |s|
    ensures k < 0 ==> |r| == if |s| + k < 0 then 0 else |s| + k
    ensures r == s[..|r|]
  {
    if k >= 0 then
      (if k < |s| then s[..k] else s)
    else
      (if |s| + k < 0 then [] else s[..|s| + k])
  }

  /** Python's `s[k:]`: what `s[:k]` leaves behind. */
  function Drop<T>(s: seq<T>, k: int): (r: seq<T>)
    ensures Take(s, k) + r == s
  {
    if k >= 0 then
      (if k < |s| then s[k..] else [])
    else
      (if |s| + k < 0 then s else s[|s| + k..])
  }

  /** `s[:limit]` when a limit is given, `s` itself for `limit=None`. */
  function TakeAtMost<T>(s: seq<T>, limit: Option<int>): (r: seq<T>)
    ensures limit.None? ==> r == s
    ensures |r| <= |s| && r == s[..|r|]
  {
    match limit
    case None => s
    case Some(k) => Take(s, k)
  }

  // ---------------------------------------------------------------------
  // `str()` of an integer

  function DigitChar(d: int): (c: char)
    requires 0 <= d <= 9
    ensures IsDigit(c) && DigitValue(c) == d
  {
    ('0' as int + d) as char
  }

  function NatToStr(n: nat): (r: string)
    ensures |r| >= 1
    ensures IsDigits(r)
  {
    if n < 10 then [DigitChar(n)] else NatToStr(n / 10) + [DigitChar(n % 10)]
  }

  function IntToStr(n: int): (r: string)
    ensures |r| >= 1
    ensures n < 0 <==> r[0] == '-'
  {
    if n < 0 then "-" + NatToStr(-n) else NatToStr(n)
  }

  /** `str(v)` of a record value. */
  function ValueToStr(v: Value): string {
    match v
    case Num(n) => IntToStr(n)
    case Str(s) => s
  }
}
