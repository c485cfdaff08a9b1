/**
 * Cursor primitives of the parser: pure functions from a document and an
 * offset to an offset (or an error). Nothing here builds values.
 */
module Cursor {
  import opened Results
  import opened Text

  /*** Error positions (getLineColFromPtr) ***/

  predicate IsLineBreakChar(c: char) {
    c == '\n' || c == '\r'
  }

  /** Number of line breaks in `p`: each `\n`, and each `\r` that no `\n` follows. */
  ghost function Breaks(p: string): nat
    decreases |p|
  {
    if p == [] then 0
    else (if p[0] == '\n' || (p[0] == '\r' && !(|p| > 1 && p[1] == '\n')) then 1 else 0) + Breaks(p[1..])
  }

  /**
   * 1-based line and column of the end of `p`: lines are separated by
   * `\r\n`, `\n` or `\r`, and the column is one more than the length of the
   * last line.
   */
  function LineColOf(p: string): (r: (nat, nat))
    ensures r.0 >= 1 && 1 <= r.1 <= |p| + 1
    ensures r.0 == 1 <==> forall j :: 0 <= j < |p| ==> !IsLineBreakChar(p[j])
    ensures r.0 == 1 ==> r.1 == |p| + 1
    ensures r.0 == 1 + Breaks(p)
    ensures r.0 > 1 ==> r.1 <= |p| && IsLineBreakChar(p[|p| - r.1])
    ensures forall j :: |p| + 1 - r.1 <= j < |p| ==> !IsLineBreakChar(p[j])
    decreases |p|
  {
    if p == [] then (1, 1)
    else if p[0] == '\r' && |p| > 1 && p[1] == '\n' then
      var rest := LineColOf(p[2..]);
      assert p[1..][1..] == p[2..];
      assert forall j :: 2 <= j < |p| ==> p[j] == p[2..][j - 2];
      (rest.0 + 1, rest.1)
    else if IsLineBreakChar(p[0]) then
      var rest := LineColOf(p[1..]);
      assert forall j :: 1 <= j < |p| ==> p[j] == p[1..][j - 1];
      (rest.0 + 1, rest.1)
    else
      var rest := LineColOf(p[1..]);
      assert forall j :: 1 <= j < |p| ==> p[j] == p[1..][j - 1];
      (rest.0, if rest.0 == 1 then rest.1 + 1 else rest.1)
  }

  /**
   * `getLineColFromPtr(str, ptr)`: for an offset inside the document, the
   * line is one more than the number of line breaks before it, and the
   * column counts from just after the last of them.
   */
  function LineCol(s: string, ptr: int): (r: (nat, nat))
    ensures 0 <= ptr <= |s| ==> r.0 == 1 + Breaks(s[..ptr])
    ensures 0 <= ptr <= |s| ==> 1 <= r.1 <= ptr + 1 && forall j :: ptr + 1 - r.1 <= j < ptr ==> !IsLineBreakChar(s[j])
    ensures 0 <= ptr <= |s| && r.0 > 1 ==> r.1 <= ptr && IsLineBreakChar(s[ptr - r.1])
    ensures 0 <= ptr <= |s| && r.0 == 1 ==> r.1 == ptr + 1
  {
    var p := Slice(s, 0, ptr);
    assert 0 <= ptr <= |s| ==> p == s[..ptr] && forall j :: 0 <= j < ptr ==> p[j] == s[j];
    LineColOf(p)
  }

  /*** isEscaped ***/

  /** Number of consecutive backslashes that end just before `ptr`. */
  function BackslashRun(s: string, ptr: int): (n: nat)
    ensures forall j :: ptr - n <= j < ptr ==> CharIs(s, j, '\\')
    ensures !CharIs(s, ptr - n - 1, '\\')
    decreases ptr
  {
    if CharIs(s, ptr - 1, '\\') then 1 + BackslashRun(s, ptr - 1) else 0
  }

  /** The `n` characters before `ptr` are backslashes and the one before them is not. */
  ghost predicate RunBefore(s: string, ptr: int, n: nat) {
    && (forall j :: ptr - n <= j < ptr ==> CharIs(s, j, '\\'))
    && !CharIs(s, ptr - n - 1, '\\')
  }

  /** The backslash run before `ptr` has exactly one length. */
  lemma RunBeforeUnique(s: string, ptr: int, m: nat)
    requires RunBefore(s, ptr, m)
    ensures m == BackslashRun(s, ptr)
  {
  }

  /** `isEscaped(str, ptr)`: the character at `ptr` is escaped by an odd run of backslashes. */
  function IsEscaped(s: string, ptr: int): (r: bool)
    ensures forall n :: RunBefore(s, ptr, n) ==> (r <==> n % 2 == 1)
  {
    var n := BackslashRun(s, ptr);
    assert forall m :: RunBefore(s, ptr, m) ==> m == n by {
      forall m | RunBefore(s, ptr, m) {
        RunBeforeUnique(s, ptr, m);
      }
    }
    n % 2 == 1
  }

  /*** indexOfNewline ***/

  /** Is there a line break (`\n`, or `\r` followed by `\n`) starting at `i`? */
  predicate NewlineAt(s: string, i: int) {
    CharIs(s, i, '\n') || (CharIs(s, i, '\r') && CharIs(s, i + 1, '\n'))
  }

  /**
   * `indexOfNewline(str, start, end)`: where the first `\n` at or after
   * `start` begins its line break (one earlier for `\r\n`), or -1 when there
   * is none or it lies beyond `end`.
   */
  function IndexOfNewline(s: string, start: int, end: int): (r: int)
    ensures r == -1 || (0 <= r <= end && NewlineAt(s, r) && r >= start - 1)
    ensures r >= 0 ==> forall j :: Max(start, 0) <= j < r ==> s[j] != '\n'
    ensures r == -1 && end >= |s| ==> forall j :: Max(start, 0) <= j < |s| ==> s[j] != '\n'
    ensures r >= 0 ==>
      || (s[r] == '\n' && !CharIs(s, r - 1, '\r') && r >= Max(start, 0))
      || (s[r] == '\r' && CharIs(s, r + 1, '\n') && r + 1 >= Max(start, 0))
    ensures r == -1 ==>
      forall j :: Max(start, 0) <= j < |s| && s[j] == '\n' ==> end < (if CharIs(s, j - 1, '\r') then j - 1 else j)
  {
    var idx := IndexOf(s, '\n', start);
    IndexOfSkips(s, '\n', start);
    var idx' := if CharIs(s, idx - 1, '\r') then idx - 1 else idx;
    if idx' <= end then idx' else -1
  }

  /*** skipComment ***/

  /**
   * `s[ptr..e]` is a well-formed comment body ending at the line break `e`:
   * no `\n` and no banned character, except the `\r` of a `\r\n` that ends it.
   */
  ghost predicate CommentBody(s: string, ptr: nat, e: int) {
    forall j :: ptr <= j < e && j < |s| ==>
      s[j] != '\n' && (!IsControl(s[j]) || (s[j] == '\r' && j + 1 == e && CharIs(s, e, '\n')))
  }

  /** `s[j]` is a banned character inside the comment that starts at `ptr`. */
  ghost predicate BadCommentChar(s: string, ptr: nat, j: int)
    requires 0 <= j < |s|
  {
    && IsControl(s[j])
    && s[j] != '\n'
    && !(s[j] == '\r' && CharIs(s, j + 1, '\n'))
    && forall i :: ptr <= i < j ==> s[i] != '\n'
  }

  /** The comment starting at `ptr` holds a banned character. */
  ghost predicate BadComment(s: string, ptr: nat) {
    exists j :: ptr <= j < |s| && BadCommentChar(s, ptr, j)
  }

  function ScanComment(s: string, ptr: nat, i: nat): (r: Result<nat>)
    requires ptr <= i
    requires forall j :: ptr <= j < i && j < |s| ==> s[j] != '\n' && !IsControl(s[j])
    ensures r.Ok? ==> i <= r.value <= |s| || (|s| < i && r.value == |s|)
    ensures r.Ok? ==> (r.value == |s| || s[r.value] == '\n') && CommentBody(s, ptr, r.value)
    ensures r.Err? ==> r.error == TomlError(CommentControlChar, ptr)
    ensures r.Err? ==> exists j :: i <= j < |s| && BadCommentChar(s, ptr, j)
    decreases |s| - i
  {
    if i >= |s| then Ok(|s|)
    else if s[i] == '\n' then Ok(i)
    else if s[i] == '\r' && CharIs(s, i + 1, '\n') then Ok(i + 1)
    else if IsControl(s[i]) then
      assert BadCommentChar(s, ptr, i);
      Fail(CommentControlChar, ptr)
    else ScanComment(s, ptr, i + 1)
  }

  /**
   * `skipComment(str, ptr)`: the offset of the `\n` that ends the comment
   * starting at `ptr` (or the end of the document); fails, reporting `ptr`,
   * when the comment holds a banned character.
   */
  function SkipComment(s: string, ptr: nat): (r: Result<nat>)
    ensures r.Ok? && ptr <= |s| ==> ptr <= r.value <= |s| && (r.value == |s| || s[r.value] == '\n')
    ensures r.Ok? ==> CommentBody(s, ptr, r.value)
    ensures r.Err? ==> r.error == TomlError(CommentControlChar, ptr)
    ensures r.Err? <==> exists j :: ptr <= j < |s| && BadCommentChar(s, ptr, j)
  {
    ScanComment(s, ptr, ptr)
  }

  /*** skipVoid ***/

  /** Does the `while` loop of `skipVoid` step over offset `i`? */
  predicate IsBlankAt(s: string, i: int, banNewLines: bool) {
    CharIs(s, i, ' ') || CharIs(s, i, '\t') || (!banNewLines && NewlineAt(s, i))
  }

  function SkipBlanks(s: string, ptr: nat, banNewLines: bool): (r: nat)
    ensures ptr <= r <= Max(ptr, |s|)
    ensures !IsBlankAt(s, r, banNewLines)
    ensures forall j :: ptr <= j < r ==> IsBlankAt(s, j, banNewLines)
    decreases |s| - ptr
  {
    if IsBlankAt(s, ptr, banNewLines) then SkipBlanks(s, ptr + 1, banNewLines) else ptr
  }

  /** Where `skipVoid` may stop. */
  predicate StopsAt(s: string, i: int, banNewLines: bool, banComments: bool) {
    !IsBlankAt(s, i, banNewLines) && (banComments || !CharIs(s, i, '#'))
  }

  /**
   * `skipVoid(str, ptr, banNewLines, banComments)`: skips spaces, tabs, line
   * breaks (unless banned) and comments (unless banned).
   */
  function SkipVoid(s: string, ptr: nat, banNewLines: bool, banComments: bool): (r: Result<nat>)
    ensures r.Ok? ==> ptr <= r.value <= Max(ptr, |s|)
    ensures r.Ok? && IsBlankAt(s, ptr, banNewLines) ==> ptr < r.value
    ensures r.Ok? ==> StopsAt(s, r.value, banNewLines, banComments)
    ensures banComments ==> r.Ok? && forall j :: ptr <= j < r.value ==> IsBlankAt(s, j, banNewLines)
    ensures r.Err? ==> !banComments && r.error.kind == CommentControlChar
    decreases |s| - ptr
  {
    var p := SkipBlanks(s, ptr, banNewLines);
    if banComments || !CharIs(s, p, '#') then Ok(p)
    else
      var q :- SkipComment(s, p);
      SkipVoid(s, q, banNewLines, false)
  }

  /**
   * What `skipVoid` steps over holds no control character, except as part
   * of a line break: blanks, line breaks and the text of well-formed comments.
   */
  lemma {:induction false} SkipVoidClean(s: string, ptr: nat, banNewLines: bool, banComments: bool)
    ensures var r := SkipVoid(s, ptr, banNewLines, banComments);
      r.Ok? ==> forall j :: ptr <= j < r.value ==> !IsControl(s[j]) || NewlineAt(s, j)
    decreases |s| - ptr
  {
    var p := SkipBlanks(s, ptr, banNewLines);
    forall j | ptr <= j < p
      ensures !IsControl(s[j]) || NewlineAt(s, j)
    {
      assert IsBlankAt(s, j, banNewLines);
    }
    if !banComments && CharIs(s, p, '#') {
      var c := SkipComment(s, p);
      if c.Ok? {
        assert SkipVoid(s, ptr, banNewLines, banComments) == SkipVoid(s, c.value, banNewLines, false);
        SkipVoidClean(s, c.value, banNewLines, false);
        forall j | p <= j < c.value
          ensures !IsControl(s[j]) || NewlineAt(s, j)
        {
          assert CommentBody(s, p, c.value);
        }
      }
    }
  }

  /** A comment holding a control character stops `skipVoid`. */
  lemma SkipVoidRejectsBadComment(s: string, ptr: nat, banNewLines: bool, j: nat)
    requires CharIs(s, SkipBlanks(s, ptr, banNewLines), '#')
    requires SkipBlanks(s, ptr, banNewLines) <= j < |s|
    requires BadCommentChar(s, SkipBlanks(s, ptr, banNewLines), j)
    ensures SkipVoid(s, ptr, banNewLines, false) == Err(TomlError(CommentControlChar, SkipBlanks(s, ptr, banNewLines)))
  {
  }

  /**
   * Offset `j` lies inside a comment that starts at or after `from`: a `#`
   * at or before `j` with no `\n` from it up to `j`.
   */
  ghost predicate InComment(s: string, from: nat, j: int) {
    exists h :: from <= h <= j < |s| && s[h] == '#' && forall i :: h <= i <= j ==> s[i] != '\n'
  }

  lemma InCommentFrom(s: string, a: nat, b: nat, j: int)
    requires a <= b && InComment(s, b, j)
    ensures InComment(s, a, j)
  {
  }

  /** A scan starting on something other than `#` sees the same comments as one starting just after it. */
  lemma InCommentStep(s: string, i: nat, j: int)
    requires !CharIs(s, i, '#')
    ensures InComment(s, i, j) <==> InComment(s, i + 1, j)
  {
    if InComment(s, i, j) {
      var h :| i <= h <= j < |s| && s[h] == '#' && forall k :: h <= k <= j ==> s[k] != '\n';
      assert h != i;
    }
  }

  /** Everything from the `#` at `h` up to the `\n` at `e` (exclusive) is comment. */
  lemma InCommentSpan(s: string, from: nat, h: nat, e: nat, j: int)
    requires from <= h <= j < e <= |s| && s[h] == '#'
    requires forall i :: h <= i < e ==> s[i] != '\n'
    ensures InComment(s, from, j)
  {
  }

  /** A `\n` at `e` ends every comment that starts before it. */
  lemma NotInCommentAfter(s: string, from: nat, e: nat, j: int)
    requires from <= e <= j && CharIs(s, e, '\n') && !InComment(s, e, j)
    ensures !InComment(s, from, j)
  {
  }

  /** What `skipVoid` steps over: a blank, or a character of a comment. */
  ghost predicate Skippable(s: string, from: nat, j: int, banNewLines: bool) {
    IsBlankAt(s, j, banNewLines) || InComment(s, from, j)
  }

  /** The first offset `skipVoid` does not step over: a blank, or inside a comment. */
  lemma SkipBlanksNotInComment(s: string, ptr: nat, banNewLines: bool)
    requires !CharIs(s, SkipBlanks(s, ptr, banNewLines), '#')
    ensures !InComment(s, ptr, SkipBlanks(s, ptr, banNewLines))
  {
    var p := SkipBlanks(s, ptr, banNewLines);
    forall h | ptr <= h < p
      ensures s[h] != '#'
    {
      assert IsBlankAt(s, h, banNewLines);
    }
  }

  /** The comment at `p` and what the rest of `skipVoid` steps over from its end `q`. */
  lemma SkipVoidThroughComment(s: string, ptr: nat, p: nat, q: nat, banNewLines: bool, stop: int)
    requires ptr <= p <= q <= stop && CharIs(s, p, '#') && q <= |s|
    requires forall j :: ptr <= j < p ==> IsBlankAt(s, j, banNewLines)
    requires forall j :: p <= j < q ==> s[j] != '\n'
    requires forall j :: q <= j < stop ==> Skippable(s, q, j, banNewLines)
    ensures forall j :: ptr <= j < stop ==> Skippable(s, ptr, j, banNewLines)
  {
    forall j | ptr <= j < stop
      ensures Skippable(s, ptr, j, banNewLines)
    {
      if p <= j < q {
        InCommentSpan(s, ptr, p, q, j);
      } else if q <= j {
        assert Skippable(s, q, j, banNewLines);
        if InComment(s, q, j) {
          InCommentFrom(s, ptr, q, j);
        }
      }
    }
  }

  /**
   * Allowing comments, `skipVoid` stops at the first offset that is neither
   * a blank nor inside a comment.
   */
  lemma {:induction false} SkipVoidStops(s: string, ptr: nat, banNewLines: bool)
    ensures var r := SkipVoid(s, ptr, banNewLines, false);
      r.Ok? ==> (forall j :: ptr <= j < r.value ==> Skippable(s, ptr, j, banNewLines)) && !Skippable(s, ptr, r.value, banNewLines)
    decreases |s| - ptr
  {
    var p := SkipBlanks(s, ptr, banNewLines);
    if CharIs(s, p, '#') {
      var c := SkipComment(s, p);
      if c.Ok? {
        var q := c.value;
        SkipVoidStops(s, q, banNewLines);
        var r := SkipVoid(s, q, banNewLines, false);
        if r.Ok? {
          SkipVoidThroughComment(s, ptr, p, q, banNewLines, r.value);
          if q < |s| {
            NotInCommentAfter(s, ptr, q, r.value);
          }
        }
      }
    } else {
      SkipBlanksNotInComment(s, ptr, banNewLines);
    }
  }

  /**
   * Allowing comments, `skipVoid` fails, at the comment's `#`, only on a
   * comment holding a banned character that it reached by stepping over
   * blanks and comments.
   */
  lemma {:induction false} SkipVoidFails(s: string, ptr: nat, banNewLines: bool)
    ensures var r := SkipVoid(s, ptr, banNewLines, false);
      r.Err? ==> var h := r.error.ptr;
        && ptr <= h && CharIs(s, h, '#') && BadComment(s, h)
        && forall j :: ptr <= j < h ==> Skippable(s, ptr, j, banNewLines)
    decreases |s| - ptr
  {
    var p := SkipBlanks(s, ptr, banNewLines);
    if CharIs(s, p, '#') {
      var c := SkipComment(s, p);
      if c.Ok? {
        var q := c.value;
        SkipVoidFails(s, q, banNewLines);
        var r := SkipVoid(s, q, banNewLines, false);
        if r.Err? {
          SkipVoidThroughComment(s, ptr, p, q, banNewLines, r.error.ptr);
        }
      }
    }
  }

  /*** skipUntil ***/

  /** Where `skipUntil` may stop inside a structure closed by `end`. */
  predicate UntilStop(s: string, e: int, sep: char, end: char, banNewLines: bool) {
    CharIs(s, e - 1, sep) || CharIs(s, e, end) || (banNewLines && NewlineAt(s, e))
  }

  function ScanUntil(s: string, ptr: nat, i: nat, sep: char, end: char, banNewLines: bool): (r: Result<nat>)
    requires ptr <= i
    ensures r.Ok? ==> i <= r.value <= |s| && UntilStop(s, r.value, sep, end, banNewLines)
    ensures r.Err? ==> r.error == TomlError(UnterminatedStructure, ptr)
    decreases |s| - i
  {
    if i >= |s| then Fail(UnterminatedStructure, ptr)
    else if s[i] == '#' then
      var j := IndexOfNewline(s, i, |s|);
      if j < 0 then Fail(UnterminatedStructure, ptr)
      else ScanUntil(s, ptr, j + 1, sep, end, banNewLines)
    else if s[i] == sep then Ok(i + 1)
    else if s[i] == end || (banNewLines && NewlineAt(s, i)) then Ok(i)
    else ScanUntil(s, ptr, i + 1, sep, end, banNewLines)
  }

  /**
   * Offset `k` is stepped over by the scan of `skipUntil` as part of a
   * comment starting at or after `from`: the scan jumps from a `#` to the
   * line break `indexOfNewline` finds and resumes after it, so the comment
   * takes in its closing `\n`, or, for `\r\n`, only the `\r`.
   */
  ghost predicate SkippedComment(s: string, from: nat, k: int) {
    exists h :: from <= h <= k < |s| && s[h] == '#' && (forall i :: h <= i < k ==> s[i] != '\n')
      && !(s[k] == '\n' && h < k && s[k - 1] == '\r')
  }

  /** A character `skipUntil` stops on: `sep`, `end`, or a banned line break. */
  predicate StopChar(s: string, k: int, sep: char, end: char, banNewLines: bool) {
    CharIs(s, k, sep) || CharIs(s, k, end) || (banNewLines && NewlineAt(s, k))
  }

  /** From `a` up to `b`, every stop character lies inside a comment. */
  ghost predicate Quiet(s: string, from: nat, a: int, b: int, sep: char, end: char, banNewLines: bool) {
    forall k :: a <= k < b ==> SkippedComment(s, from, k) || !StopChar(s, k, sep, end, banNewLines)
  }

  /** `k` is the first stop character from `from` on that no comment covers. */
  ghost predicate FirstStop(s: string, from: nat, k: int, sep: char, end: char, banNewLines: bool) {
    && from <= k < |s|
    && StopChar(s, k, sep, end, banNewLines)
    && !SkippedComment(s, from, k)
    && Quiet(s, from, from, k, sep, end, banNewLines)
  }

  lemma SkippedCommentFrom(s: string, a: nat, b: nat, k: int)
    requires a <= b && SkippedComment(s, b, k)
    ensures SkippedComment(s, a, k)
  {
  }

  /** Scanning on from a character that is no `#` sees the same comments. */
  lemma SkippedCommentStep(s: string, i: nat, k: int)
    requires !CharIs(s, i, '#')
    ensures SkippedComment(s, i, k) <==> SkippedComment(s, i + 1, k)
  {
    if SkippedComment(s, i, k) {
      var h :| i <= h <= k < |s| && s[h] == '#' && (forall x :: h <= x < k ==> s[x] != '\n')
        && !(s[k] == '\n' && h < k && s[k - 1] == '\r');
      assert h != i;
    }
  }

  /**
   * From the `#` at `i`, the scan jumps to `j + 1` where `j` is the line
   * break `indexOfNewline` finds: everything in between is comment, and
   * after it the comment is over.
   */
  lemma SkippedCommentJump(s: string, i: nat, j: nat, k: int)
    requires CharIs(s, i, '#') && j == IndexOfNewline(s, i, |s|)
    ensures i <= k <= j ==> SkippedComment(s, i, k)
    ensures j + 1 <= k ==> (SkippedComment(s, i, k) <==> SkippedComment(s, j + 1, k))
  {
    if i <= k <= j {
      assert forall x :: i <= x < k ==> s[x] != '\n';
      assert !(s[k] == '\n' && i < k && s[k - 1] == '\r');
    }
    if j + 1 <= k && SkippedComment(s, i, k) {
      var h :| i <= h <= k < |s| && s[h] == '#' && (forall x :: h <= x < k ==> s[x] != '\n')
        && !(s[k] == '\n' && h < k && s[k - 1] == '\r');
      assert s[j] == '\n' || (s[j] == '\r' && s[j + 1] == '\n');
      assert j < h;
    }
  }

  /**
   * `skipUntil`'s scan stops at the first stop character outside comments,
   * just past it when it is `sep`; it fails exactly when there is none.
   */
  lemma {:induction false} ScanUntilFirstStop(s: string, ptr: nat, i: nat, sep: char, end: char, banNewLines: bool)
    requires ptr <= i
    ensures var r := ScanUntil(s, ptr, i, sep, end, banNewLines);
      && (r.Ok? ==> exists k :: FirstStop(s, i, k, sep, end, banNewLines) && r.value == (if s[k] == sep then k + 1 else k))
      && (r.Err? ==> Quiet(s, i, i, |s|, sep, end, banNewLines))
    decreases |s| - i
  {
    var r := ScanUntil(s, ptr, i, sep, end, banNewLines);
    if i >= |s| {
    } else if s[i] == '#' {
      var j := IndexOfNewline(s, i, |s|);
      if j < 0 {
        forall k | i <= k < |s|
          ensures SkippedComment(s, i, k)
        {
          assert forall x :: i <= x < k ==> s[x] != '\n';
        }
      } else {
        ScanUntilFirstStop(s, ptr, j + 1, sep, end, banNewLines);
        forall k | i <= k
          ensures i <= k <= j ==> SkippedComment(s, i, k)
          ensures j + 1 <= k ==> (SkippedComment(s, i, k) <==> SkippedComment(s, j + 1, k))
        {
          SkippedCommentJump(s, i, j, k);
        }
        if r.Ok? {
          var k :| FirstStop(s, j + 1, k, sep, end, banNewLines) && r.value == (if s[k] == sep then k + 1 else k);
          assert FirstStop(s, i, k, sep, end, banNewLines);
        }
      }
    } else {
      forall k | true
        ensures SkippedComment(s, i, k) <==> SkippedComment(s, i + 1, k)
      {
        SkippedCommentStep(s, i, k);
      }
      if StopChar(s, i, sep, end, banNewLines) {
        assert FirstStop(s, i, i, sep, end, banNewLines);
      } else {
        ScanUntilFirstStop(s, ptr, i + 1, sep, end, banNewLines);
        if r.Ok? {
          var k :| FirstStop(s, i + 1, k, sep, end, banNewLines) && r.value == (if s[k] == sep then k + 1 else k);
          assert FirstStop(s, i, k, sep, end, banNewLines);
        }
      }
    }
  }

  /**
   * Inside a structure, `skipUntil` stops at the first `sep`, `end` or
   * banned line break outside comments from `ptr` on (just past a `sep`),
   * and fails exactly when there is none.
   */
  lemma SkipUntilFirstStop(s: string, ptr: nat, sep: char, end: char, banNewLines: bool)
    ensures var r := SkipUntil(s, ptr, sep, Some(end), banNewLines);
      && (r.Ok? ==> exists k :: FirstStop(s, ptr, k, sep, end, banNewLines) && r.value == (if s[k] == sep then k + 1 else k))
      && (r.Err? ==> r.error == TomlError(UnterminatedStructure, ptr) && Quiet(s, ptr, ptr, |s|, sep, end, banNewLines))
  {
    ScanUntilFirstStop(s, ptr, ptr, sep, end, banNewLines);
  }

  /**
   * `skipUntil(str, ptr, sep, end, banNewLines)`, as it is evidently
   * meant to work: without `end`, the end of the current line; inside a
   * structure, just past the next `sep`, or at `end` (or a banned line
   * break), skipping comments. A comment that runs to the end of the
   * document leaves no terminator, which is an unterminated structure.
   */
  function SkipUntil(s: string, ptr: nat, sep: char, end: Option<char>, banNewLines: bool): (r: Result<nat>)
    ensures r.Ok? ==> r.value <= |s|
    ensures r.Ok? && end.Some? ==> ptr <= r.value && UntilStop(s, r.value, sep, end.value, banNewLines)
    ensures r.Ok? && end.None? && ptr <= |s| ==> ptr - 1 <= r.value && (r.value == |s| || NewlineAt(s, r.value))
    ensures end.None? ==> r.Ok?
  {
    if end.None? then
      var p := IndexOfNewline(s, ptr, |s|);
      Ok(if p < 0 then |s| else p)
    else ScanUntil(s, ptr, ptr, sep, end.value, banNewLines)
  }

  /** Outcome of the loop of `skipUntil` as written, which need not terminate. */
  datatype Scan = Stop(pos: nat) | Fault(error: TomlError) | Hang

  /**
   * The loop of `skipUntil` exactly as written. On a `#` with no line break
   * after it, `indexOfNewline` answers -1, the loop's `i++` makes that 0 and
   * the scan starts over from the beginning of the document. The second
   * time this happens the loop is back at offset 0 in the same state as
   * before, so it never ends: `Hang`.
   */
  function ScanAsWritten(s: string, ptr: nat, i: nat, sep: char, end: char, banNewLines: bool, restarted: bool): Scan
    decreases if restarted then 0 else 1, |s| - i
  {
    if i >= |s| then Fault(TomlError(UnterminatedStructure, ptr))
    else if s[i] == '#' then
      var j := IndexOfNewline(s, i, |s|);
      if j >= 0 then ScanAsWritten(s, ptr, j + 1, sep, end, banNewLines, restarted)
      else if restarted then Hang
      else ScanAsWritten(s, ptr, 0, sep, end, banNewLines, true)
    else if s[i] == sep then Stop(i + 1)
    else if s[i] == end || (banNewLines && NewlineAt(s, i)) then Stop(i)
    else ScanAsWritten(s, ptr, i + 1, sep, end, banNewLines, restarted)
  }

  /** `skipUntil` as written. */
  function SkipUntilAsWritten(s: string, ptr: nat, sep: char, end: Option<char>, banNewLines: bool): Scan {
    if end.None? then
      var p := IndexOfNewline(s, ptr, |s|);
      Stop(if p < 0 then |s| else p)
    else ScanAsWritten(s, ptr, ptr, sep, end.value, banNewLines, false)
  }

  /** `x = [1 # c` at the end of a document: the scan for the end of `1` never ends. */
  lemma SkipUntilAsWrittenHangs()
    ensures SkipUntilAsWritten("x = [1 # c", 5, ',', Some(']'), false) == Hang
    ensures SkipUntil("x = [1 # c", 5, ',', Some(']'), false) == Fail(UnterminatedStructure, 5)
  {
  }

  /** `x = [1, 2 # c`: the scan for the end of `2` answers an offset before `2`. */
  lemma SkipUntilAsWrittenMovesBack()
    ensures SkipUntilAsWritten("x = [1, 2 # c", 8, ',', Some(']'), false) == Stop(7)
    ensures SkipUntil("x = [1, 2 # c", 8, ',', Some(']'), false) == Fail(UnterminatedStructure, 8)
  {
  }

  /*** getStringEnd ***/

  /**
   * First occurrence of the closing delimiter `target` at or after `from`
   * that is not escaped (escapes do not exist in literal strings).
   */
  function FindClosing(s: string, target: string, first: char, from: nat): (r: int)
    requires |target| > 0
    ensures r == -1 || (from <= r && OccursAt(s, target, r) && (first == '\'' || !IsEscaped(s, r)))
    ensures forall j :: from <= j < |s| && (r == -1 || j < r) && OccursAt(s, target, j) ==> first != '\'' && IsEscaped(s, j)
    decreases |s| - from
  {
    var k := IndexOfSeq(s, target, from);
    if k > -1 && first != '\'' && IsEscaped(s, k) then FindClosing(s, target, first, k + 1) else k
  }

  /** Is a string opening with three equal quote characters at `seek`? */
  predicate TripleQuoteAt(s: string, seek: nat)
    requires seek < |s|
  {
    CharIs(s, seek + 1, s[seek]) && CharIs(s, seek + 2, s[seek])
  }

  /** The delimiter that closes a string whose opening quote is at `seek`. */
  function Delimiter(s: string, seek: nat): (r: string)
    requires seek < |s|
    ensures |r| == (if TripleQuoteAt(s, seek) then 3 else 1)
    ensures forall j :: 0 <= j < |r| ==> r[j] == s[seek]
  {
    if TripleQuoteAt(s, seek) then s[seek..seek + 3] else [s[seek]]
  }

  /**
   * A closing delimiter at `k`: after the opening one, and not escaped
   * (literal strings have no escapes).
   */
  ghost predicate ClosesAt(s: string, seek: nat, k: int)
    requires seek < |s|
  {
    seek + |Delimiter(s, seek)| <= k && OccursAt(s, Delimiter(s, seek), k) && (s[seek] == '\'' || !IsEscaped(s, k))
  }

  /** No closing delimiter follows the opening one at `seek`. */
  ghost predicate Unclosed(s: string, seek: nat)
    requires seek < |s|
  {
    forall k :: !ClosesAt(s, seek, k)
  }

  /** `k` is the first closing delimiter. */
  ghost predicate FirstClose(s: string, seek: nat, k: int)
    requires seek < |s|
  {
    ClosesAt(s, seek, k) && forall j :: seek < j < k ==> !ClosesAt(s, seek, j)
  }

  /**
   * `r` is just past the first closing delimiter, and past at most two more
   * quote characters after it.
   */
  ghost predicate EndsAfterClose(s: string, seek: nat, r: int)
    requires seek < |s|
  {
    exists k :: FirstClose(s, seek, k) && k + |Delimiter(s, seek)| <= r <= k + 3 * |Delimiter(s, seek)| - 1
  }

  /** The search of `getStringEnd` finds the first closing delimiter, or -1 when there is none. */
  lemma FindClosingFirst(s: string, seek: nat)
    requires seek < |s|
    ensures var d := Delimiter(s, seek);
      var k := FindClosing(s, d, s[seek], seek + |d|);
      && (k == -1 <==> forall j :: !ClosesAt(s, seek, j))
      && (k >= 0 ==> FirstClose(s, seek, k))
  {
    var d := Delimiter(s, seek);
    var k := FindClosing(s, d, s[seek], seek + |d|);
    if k == -1 {
      FindClosingNone(s, seek);
    } else {
      FindClosingSome(s, seek);
    }
  }

  lemma FindClosingNone(s: string, seek: nat)
    requires seek < |s|
    requires FindClosing(s, Delimiter(s, seek), s[seek], seek + |Delimiter(s, seek)|) == -1
    ensures forall j :: !ClosesAt(s, seek, j)
  {
    var d := Delimiter(s, seek);
    forall j | seek + |d| <= j && OccursAt(s, d, j)
      ensures s[seek] != '\'' && IsEscaped(s, j)
    {
      assert j < |s|;
    }
  }

  lemma FindClosingSome(s: string, seek: nat)
    requires seek < |s|
    requires FindClosing(s, Delimiter(s, seek), s[seek], seek + |Delimiter(s, seek)|) >= 0
    ensures FirstClose(s, seek, FindClosing(s, Delimiter(s, seek), s[seek], seek + |Delimiter(s, seek)|))
  {
    var d := Delimiter(s, seek);
    var k := FindClosing(s, d, s[seek], seek + |d|);
    assert ClosesAt(s, seek, k);
    forall j | seek < j < k && seek + |d| <= j && OccursAt(s, d, j)
      ensures s[seek] != '\'' && IsEscaped(s, j)
    {
      assert j < |s|;
    }
  }

  /**
   * `getStringEnd(str, seek)`: the offset just past the string whose opening
   * quote is at `seek`, or -1 exactly when no closing delimiter follows. A
   * triple-quoted string also takes up to two quote characters that follow
   * its closing delimiter.
   */
  function GetStringEnd(s: string, seek: nat): (r: int)
    requires seek < |s|
    ensures r == -1 || seek + 2 <= r <= |s|
    ensures r >= 0 ==> s[r - 1] == s[seek]
    ensures r >= 0 && !TripleQuoteAt(s, seek) ==>
      forall j :: seek < j < r - 1 && s[j] == s[seek] ==> s[seek] != '\'' && IsEscaped(s, j)
    ensures r == -1 <==> Unclosed(s, seek)
  {
    if TripleQuoteAt(s, seek) then TripleStringEnd(s, seek) else SingleStringEnd(s, seek)
  }

  /** A string that ends, ends just past its first closing delimiter and the quotes that follow it. */
  lemma GetStringEndCloses(s: string, seek: nat)
    requires seek < |s|
    ensures var r := GetStringEnd(s, seek);
      r >= 0 ==> EndsAfterClose(s, seek, r)
  {
    if TripleQuoteAt(s, seek) {
      TripleEndCloses(s, seek);
    } else {
      SingleEndCloses(s, seek);
    }
  }

  lemma TripleEndCloses(s: string, seek: nat)
    requires seek < |s| && TripleQuoteAt(s, seek)
    ensures var r := TripleStringEnd(s, seek);
      r >= 0 ==> EndsAfterClose(s, seek, r)
  {
    assert |Delimiter(s, seek)| == 3;
  }

  lemma SingleEndCloses(s: string, seek: nat)
    requires seek < |s| && !TripleQuoteAt(s, seek)
    ensures var r := SingleStringEnd(s, seek);
      r >= 0 ==> EndsAfterClose(s, seek, r)
  {
    var r := SingleStringEnd(s, seek);
    assert |Delimiter(s, seek)| == 1;
    if r >= 0 {
      assert FirstClose(s, seek, r - 1);
    }
  }

  /** A triple-quoted string ends after its first closing triple and up to two more quotes. */
  function TripleStringEnd(s: string, seek: nat): (r: int)
    requires seek < |s| && TripleQuoteAt(s, seek)
    ensures r == -1 || (seek + 2 <= r <= |s| && s[r - 1] == s[seek])
    ensures r == -1 <==> Unclosed(s, seek)
    ensures r >= 0 ==> exists k :: (
      && FirstClose(s, seek, k) && k + 3 <= r <= k + 5
      && (forall j :: k + 3 <= j < r ==> s[j] == s[seek])
      && (r < k + 5 ==> !CharIs(s, r, s[seek])))
  {
    var k := FindClosing(s, s[seek..seek + 3], s[seek], seek + 3);
    TripleClosing(s, seek);
    FindClosingFirst(s, seek);
    if k < 0 then -1 else QuotesAfter(s, k + 3, s[seek])
  }

  lemma TripleClosing(s: string, seek: nat)
    requires seek < |s| && TripleQuoteAt(s, seek)
    ensures var k := FindClosing(s, s[seek..seek + 3], s[seek], seek + 3);
      k == -1 || (seek + 3 <= k && k + 3 <= |s| && s[k + 2] == s[seek])
  {
    var target := s[seek..seek + 3];
    if FindClosing(s, target, s[seek], seek + 3) >= 0 {
      ClosingEnd(s, target, s[seek], seek + 3);
    }
  }

  /** Up to two more `first` characters from `e` on. */
  function QuotesAfter(s: string, e: nat, first: char): (r: nat)
    requires 0 < e <= |s| && s[e - 1] == first
    ensures e <= r <= e + 2 && r <= |s| && s[r - 1] == first
    ensures forall j :: e <= j < r ==> s[j] == first
    ensures r < e + 2 ==> !CharIs(s, r, first)
  {
    var e1 := if CharIs(s, e, first) then e + 1 else e;
    if CharIs(s, e1, first) then e1 + 1 else e1
  }

  /** A one-quote string ends just after its first closing quote. */
  function SingleStringEnd(s: string, seek: nat): (r: int)
    requires seek < |s| && !TripleQuoteAt(s, seek)
    ensures r == -1 || (seek + 2 <= r <= |s| && s[r - 1] == s[seek])
    ensures r >= 0 ==> forall j :: seek < j < r - 1 && s[j] == s[seek] ==> s[seek] != '\'' && IsEscaped(s, j)
    ensures r == -1 <==> Unclosed(s, seek)
    ensures r >= 0 ==> FirstClose(s, seek, r - 1)
  {
    var k := FindClosing(s, [s[seek]], s[seek], seek + 1);
    FindClosingFirst(s, seek);
    if k < 0 then -1
    else
      ClosingEnd(s, [s[seek]], s[seek], seek + 1);
      SingleClosing(s, seek);
      k + 1
  }

  lemma ClosingEnd(s: string, target: string, first: char, from: nat)
    requires |target| > 0 && FindClosing(s, target, first, from) >= 0
    ensures var k := FindClosing(s, target, first, from);
      k + |target| <= |s| && s[k + |target| - 1] == target[|target| - 1]
  {
  }

  /** Before the closing quote of a one-quote string, every quote character is escaped. */
  lemma SingleClosing(s: string, seek: nat)
    requires seek < |s|
    ensures var k := FindClosing(s, [s[seek]], s[seek], seek + 1);
      forall j :: seek < j < k && s[j] == s[seek] ==> s[seek] != '\'' && IsEscaped(s, j)
  {
    var target := [s[seek]];
    assert forall j :: seek < j < |s| && s[j] == s[seek] ==> OccursAt(s, target, j);
  }
}
