/** Operations on single file and directory names that the server relies on:
    Python's `os.path.splitext` (POSIX flavour), `str.isdigit` restricted to
    the ASCII digits, the digit filter of the filename sort key, ASCII
    `str.lower`, and the `needle in haystack` substring test. */
module Names {

  /** Python's `s.rfind(c)`: the index of the last `c` in `s`, or -1. */
  function RFind(s: string, c: char): (r: int)
    ensures -1 <= r < |s|
    ensures r >= 0 ==> s[r] == c
    ensures forall k :: r < k < |s| ==> s[k] != c
  {
    if s == [] then -1
    else if s[|s| - 1] == c then |s| - 1
    else RFind(s[..|s| - 1], c)
  }

  /** `os.path.splitext(p)`: the extension starts at the last dot of the last
      path component, provided some character other than a dot precedes that
      dot inside the component; otherwise the extension is empty, so a name
      such as ".jpg" has no extension. */
  function Splitext(p: string): (r: (string, string))
    ensures r.0 + r.1 == p
    // a non-empty extension is one dot followed by neither dots nor separators
    ensures r.1 == [] || (r.1[0] == '.' && forall k :: 0 < k < |r.1| ==> r.1[k] != '.' && r.1[k] != '/')
    // ... and the stem's last component is not made of dots only
    ensures r.1 != [] ==> exists k :: RFind(p, '/') < k < |r.0| && r.0[k] != '.'
    // no extension: the last component has no dot, or only dots before its last dot
    ensures r.1 == [] ==> forall k :: RFind(p, '/') < k < RFind(p, '.') ==> p[k] == '.'
  {
    var sep := RFind(p, '/');
    var dot := RFind(p, '.');
    if dot > sep && exists k :: sep < k < dot && p[k] != '.' then
      (p[..dot], p[dot..])
    else
      (p, [])
  }

  function Stem(p: string): string { Splitext(p).0 }

  function Ext(p: string): string { Splitext(p).1 }

  /** `str.isdigit` on one character, restricted to '0'..'9'. */
  predicate IsDigit(c: char) { '0' <= c <= '9' }

  /** `str.isdigit` on a string: non-empty and digits only. */
  predicate AllDigits(s: string) {
    |s| > 0 && forall k :: 0 <= k < |s| ==> IsDigit(s[k])
  }

  /** `''.join(filter(str.isdigit, s))`. */
  function DigitsOf(s: string): (r: string)
    ensures forall k :: 0 <= k < |r| ==> IsDigit(r[k])
    ensures r == [] <==> forall k :: 0 <= k < |s| ==> !IsDigit(s[k])
    ensures multiset(r) <= multiset(s)
  {
    if s == [] then []
    else
      var rest := DigitsOf(s[1..]);
      assert s == [s[0]] + s[1..];
      if IsDigit(s[0]) then [s[0]] + rest else rest
  }

  /** The digit filter works character by character: a digit is kept, any
      other character dropped. */
  lemma DigitsOfChar(c: char)
    ensures DigitsOf([c]) == if IsDigit(c) then [c] else []
  {
  }

  /** The digit filter distributes over concatenation, so it keeps the digits
      of `s` in their order and drops nothing else. */
  lemma {:induction false} DigitsOfAppend(a: string, b: string)
    ensures DigitsOf(a + b) == DigitsOf(a) + DigitsOf(b)
  {
    if a == [] {
      assert a + b == b;
    } else {
      var c, rest := a[0], a[1..];
      assert a == [c] + rest && a + b == [c] + (rest + b);
      DigitsOfAppend(rest, b);
      DigitsOfCons(c, rest);
      DigitsOfCons(c, rest + b);
      ConcatAssoc(if IsDigit(c) then [c] else [], DigitsOf(rest), DigitsOf(b));
    }
  }

  lemma ConcatAssoc(h: string, x: string, y: string)
    ensures h + (x + y) == (h + x) + y
  {
  }

  lemma DigitsOfCons(c: char, s: string)
    ensures DigitsOf([c] + s) == (if IsDigit(c) then [c] else []) + DigitsOf(s)
  {
    var t := [c] + s;
    assert t[0] == c && t[1..] == s;
  }

  /** Filtering a string of digits keeps all of it. */
  lemma {:induction false} DigitsOfDigits(s: string)
    requires forall k :: 0 <= k < |s| ==> IsDigit(s[k])
    ensures DigitsOf(s) == s
  {
    if s != [] {
      DigitsOfDigits(s[1..]);
      assert s == [s[0]] + s[1..];
    }
  }

  /** `int(ds)` for a string of decimal digits; the empty string gives 0,
      which is also what `int(... or 0)` gives for a name without digits. */
  function DecimalValue(ds: string): nat
    requires forall k :: 0 <= k < |ds| ==> IsDigit(ds[k])
  {
    if ds == [] then 0
    else
      assert IsDigit(ds[|ds| - 1]);
      10 * DecimalValue(ds[..|ds| - 1]) + (ds[|ds| - 1] as int - '0' as int)
  }

  /** Leading zeros do not change the value, so "01" and "1" denote the same number. */
  lemma {:induction false} LeadingZero(ds: string)
    requires forall k :: 0 <= k < |ds| ==> IsDigit(ds[k])
    ensures DecimalValue(['0'] + ds) == DecimalValue(ds)
  {
    if ds != [] {
      var z := ['0'] + ds;
      assert z[..|z| - 1] == ['0'] + ds[..|ds| - 1];
      LeadingZero(ds[..|ds| - 1]);
    }
  }

  /** `str.lower` on one character, for the ASCII letters. */
  function LowerChar(c: char): char {
    if 'A' <= c <= 'Z' then (c as int + 32) as char else c
  }

  /** `str.lower`, for the ASCII letters. */
  function Lower(s: string): (r: string)
    ensures |r| == |s|
    ensures forall k :: 0 <= k < |s| ==> !('A' <= r[k] <= 'Z')
    ensures forall k :: 0 <= k < |s| ==>
              r[k] == if 'A' <= s[k] <= 'Z' then (s[k] as int + 32) as char else s[k]
  {
    seq(|s|, k requires 0 <= k < |s| => LowerChar(s[k]))
  }

  /** Lower-casing twice is lower-casing once. */
  lemma LowerIdempotent(s: string)
    ensures Lower(Lower(s)) == Lower(s)
  {
    var once := Lower(s);
    assert forall k :: 0 <= k < |once| ==> LowerChar(once[k]) == once[k];
  }

  /** `needle` occurs in `hay` starting at position i. */
  predicate OccursAt(needle: string, hay: string, i: int) {
    0 <= i && i + |needle| <= |hay| && hay[i..i + |needle|] == needle
  }

  /** Python's `needle in hay` on strings. */
  function In(needle: string, hay: string): (r: bool)
    ensures r <==> exists i :: OccursAt(needle, hay, i)
    decreases |hay|
  {
    if |needle| <= |hay| && hay[..|needle|] == needle then
      assert OccursAt(needle, hay, 0);
      true
    else if hay == [] then
      false
    else
      InStep(needle, hay);
      In(needle, hay[1..])
  }

  /** An occurrence past the first position is an occurrence in the rest. */
  lemma InStep(needle: string, hay: string)
    requires hay != [] && !OccursAt(needle, hay, 0)
    ensures (exists i :: OccursAt(needle, hay, i)) <==> exists i :: OccursAt(needle, hay[1..], i)
  {
    if exists i :: OccursAt(needle, hay[1..], i) {
      var i :| OccursAt(needle, hay[1..], i);
      assert hay[i + 1..i + 1 + |needle|] == hay[1..][i..i + |needle|];
      assert OccursAt(needle, hay, i + 1);
    }
    if exists i :: OccursAt(needle, hay, i) {
      var i :| OccursAt(needle, hay, i);
      assert hay[1..][i - 1..i - 1 + |needle|] == hay[i..i + |needle|];
      assert OccursAt(needle, hay[1..], i - 1);
    }
  }
}
