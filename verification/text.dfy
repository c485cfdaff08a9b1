/**
 * The handful of JavaScript string operations the parser is built from, with
 * JavaScript's out-of-range behaviour made explicit: reading `str[i]` outside
 * the string gives `undefined` (equal to no character), `indexOf` answers -1,
 * and `slice` clamps and counts negative offsets from the end.
 *
 * Offsets count `char`s; JavaScript counts UTF-16 code units.
 */
module Text {

  /** `str[i] === c` */
  predicate CharIs(s: string, i: int, c: char) {
    0 <= i < |s| && s[i] == c
  }

  function Max(a: int, b: int): int {
    if a < b then b else a
  }

  /** `str.indexOf(c, from)` for a one-character search string. */
  function IndexOf(s: string, c: char, from: int): (r: int)
    ensures r == -1 || (Max(from, 0) <= r < |s| && s[r] == c)
    ensures forall j {:trigger CharIs(s, j, c)} :: Max(from, 0) <= j && (r == -1 || j < r) ==> !CharIs(s, j, c)
    decreases |s| - from
  {
    if from < 0 then IndexOf(s, c, 0)
    else if from >= |s| then -1
    else if s[from] == c then from
    else IndexOf(s, c, from + 1)
  }

  /** No `c` lies between `from` and what `indexOf` finds, stated for every index of `s`. */
  lemma IndexOfSkips(s: string, c: char, from: int)
    ensures var r := IndexOf(s, c, from);
      forall j :: Max(from, 0) <= j < |s| && (r == -1 || j < r) ==> s[j] != c
  {
    var r := IndexOf(s, c, from);
    forall j | Max(from, 0) <= j < |s| && (r == -1 || j < r)
      ensures s[j] != c
    {
      assert !CharIs(s, j, c);
    }
  }

  /** Does `t` occur in `s` at offset `i`? */
  predicate OccursAt(s: string, t: string, i: int) {
    0 <= i && i + |t| <= |s| && s[i..i + |t|] == t
  }

  /** `str.indexOf(t, from)` for a non-empty search string. */
  function IndexOfSeq(s: string, t: string, from: int): (r: int)
    requires |t| > 0
    ensures r == -1 || (Max(from, 0) <= r && OccursAt(s, t, r))
    ensures forall j :: Max(from, 0) <= j < |s| && (r == -1 || j < r) ==> !OccursAt(s, t, j)
    decreases |s| - from
  {
    if from < 0 then IndexOfSeq(s, t, 0)
    else if from + |t| > |s| then -1
    else if s[from..from + |t|] == t then from
    else IndexOfSeq(s, t, from + 1)
  }

  /** How `slice` reads one of its offsets. */
  function Clamp(i: int, n: nat): (r: nat)
    ensures r <= n
    ensures 0 <= i <= n ==> r == i
  {
    if i < 0 then (if n + i < 0 then 0 else n + i)
    else if i > n then n
    else i
  }

  /** `str.slice(a, b)` */
  function Slice(s: string, a: int, b: int): (r: string)
    ensures 0 <= a <= b <= |s| ==> r == s[a..b]
    ensures 0 <= a && 0 <= b && |r| > 0 ==> a < b && a < |s| && |r| <= b - a
    ensures |r| <= |s|
  {
    var x := Clamp(a, |s|);
    var y := Clamp(b, |s|);
    if x < y then s[x..y] else []
  }

  /** The characters `trimStart` and `trimEnd` remove: ECMAScript WhiteSpace and LineTerminator. */
  predicate JsSpace(c: char) {
    || c == '\t' || c == '\U{B}' || c == '\U{C}' || c == ' ' || c == '\U{A0}' || c == '\U{FEFF}'
    || c == '\U{1680}' || ('\U{2000}' <= c <= '\U{200A}') || c == '\U{202F}' || c == '\U{205F}'
    || c == '\U{3000}' || c == '\n' || c == '\r' || c == '\U{2028}' || c == '\U{2029}'
  }

  /** `str.trimEnd()` */
  function TrimEnd(s: string): (r: string)
    ensures |r| <= |s| && r == s[..|r|]
    ensures r == [] || !JsSpace(r[|r| - 1])
    ensures forall j {:trigger JsSpace(s[j])} :: |r| <= j < |s| ==> JsSpace(s[j])
  {
    if |s| > 0 && JsSpace(s[|s| - 1]) then TrimEnd(s[..|s| - 1]) else s
  }

  /** `str.trimStart()` */
  function TrimStart(s: string): (r: string)
    ensures |r| <= |s| && r == s[|s| - |r|..]
    ensures r == [] || !JsSpace(r[0])
    ensures forall j {:trigger JsSpace(s[j])} :: 0 <= j < |s| - |r| ==> JsSpace(s[j])
  {
    if |s| > 0 && JsSpace(s[0]) then TrimStart(s[1..]) else s
  }

  /** Control characters other than tab, and DEL: banned in comments and strings. */
  predicate IsControl(c: char) {
    (c < ' ' && c != '\t') || c == '\U{7F}'
  }

  predicate IsDigit(c: char) {
    '0' <= c <= '9'
  }

  predicate IsHexDigit(c: char) {
    IsDigit(c) || ('a' <= c <= 'f') || ('A' <= c <= 'F')
  }

  function HexDigitValue(c: char): (r: nat)
    requires IsHexDigit(c)
    ensures r < 16
  {
    if IsDigit(c) then c as int - '0' as int
    else if 'a' <= c <= 'f' then c as int - 'a' as int + 10
    else c as int - 'A' as int + 10
  }

  /** Value of a digit string in the given radix (most significant digit first). */
  function DigitsValue(s: string, radix: nat): (r: nat)
    requires 2 <= radix <= 16
    requires forall j :: 0 <= j < |s| ==> IsHexDigit(s[j])
  {
    if s == [] then 0
    else DigitsValue(s[..|s| - 1], radix) * radix + HexDigitValue(s[|s| - 1])
  }
}
