/**
 * `parseKey`: a dotted key, made of bare parts (letters, digits, `-`, `_`)
 * and single-line quoted parts, up to the character that ends it (`=` for a
 * key/value pair, `]` for a table header).
 */
module KeyParser {
  import opened Results
  import opened Text
  import opened Cursor
  import opened StringLit

  /** The characters `KEY_PART_RE` allows in a bare key part. */
  predicate BareChar(c: char) {
    ('a' <= c <= 'z') || ('A' <= c <= 'Z') || IsDigit(c) || c == '-' || c == '_'
  }

  /** Length of the run of bare characters that starts `p`. */
  function BareRun(p: string): (r: nat)
    ensures r <= |p|
    ensures forall j {:trigger BareChar(p[j])} :: 0 <= j < r ==> BareChar(p[j])
    ensures r < |p| ==> !BareChar(p[r])
  {
    if p != [] && BareChar(p[0]) then 1 + BareRun(p[1..]) else 0
  }

  /** `KEY_PART_RE.test(part)`: `^[a-zA-Z0-9-_]+[ \t]*$` */
  predicate KeyPart(p: string) {
    var n := BareRun(p);
    n > 0 && forall j :: n <= j < |p| ==> p[j] == ' ' || p[j] == '\t'
  }

  /** A part that passes `KEY_PART_RE` is its run of bare characters, with the blanks after it dropped. */
  lemma KeyPartTrim(p: string)
    requires KeyPart(p)
    ensures BareKey(TrimEnd(p)) && TrimEnd(p) == p[..BareRun(p)]
    ensures forall j :: |TrimEnd(p)| <= j < |p| ==> p[j] == ' ' || p[j] == '\t'
  {
    var n := BareRun(p);
    var r := TrimEnd(p);
    assert !JsSpace(p[n - 1]) by { assert BareChar(p[n - 1]); }
    assert forall j :: n <= j < |p| ==> JsSpace(p[j]);
    assert |r| == n;
  }

  /** The error kinds `parseKey` reports (besides those of the string decoder). */
  predicate KeyErrorKind(k: ErrorKind) {
    || k in {MissingKeyEnd, MultilineKey, UnfinishedString, NewlineInKey, ExtraTokensInKey, IllegalKeyChar}
    || (StringErrorKind(k) && k != CommentControlChar)
  }

  /** Where a key part ends: at the next `.`, unless there is none before the end of the key. */
  function PartEnd(dot: int, endPtr: int): int {
    if dot < 0 || dot > endPtr then endPtr else dot
  }

  /**
   * The variables of the loop of `parseKey`: `dot` is the offset of the
   * last `.` (or of the last character looked at), `endPtr` the offset of
   * the character that ends the key, `parsed` the parts so far.
   */
  datatype KeyState = KeyState(dot: int, endPtr: int, parsed: seq<string>)

  /**
   * One iteration of the loop of `parseKey`. After a quoted part, it
   * looks for trailing tokens up to the next `.` or the end of the
   * key found BEFORE the string, and only then looks for the end of the key
   * again when the string ran past it (`stale`). Evidently the end of the key
   * is meant to be looked for first (`!stale`): otherwise the text between
   * the string and a `.` beyond the first end character goes unchecked.
   */
  function KeyStep(s: string, end: char, st: KeyState, stale: bool): (r: Result<KeyState>)
    requires -1 <= st.dot < st.endPtr < |s| && s[st.endPtr] == end
    requires end == '=' || end == ']'
    ensures r.Ok? ==> r.value.dot == -1 || st.dot < r.value.dot
    ensures r.Ok? ==> st.endPtr <= r.value.endPtr < |s| && s[r.value.endPtr] == end
    ensures r.Ok? ==> |st.parsed| <= |r.value.parsed| <= |st.parsed| + 1 && r.value.parsed[..|st.parsed|] == st.parsed
    ensures r.Ok? && |r.value.parsed| == |st.parsed| ==> r.value.dot == st.dot + 1 < st.endPtr
    ensures r.Err? ==> KeyErrorKind(r.error.kind)
  {
    var ptr := st.dot + 1;
    var c := s[ptr];
    if c == ' ' || c == '\t' then Ok(st.(dot := ptr))
    else if c == '"' || c == '\'' then QuotedStep(s, end, st, stale)
    else
      var dot := IndexOf(s, '.', ptr);
      var part := Slice(s, ptr, PartEnd(dot, st.endPtr));
      if !KeyPart(part) then Fail(IllegalKeyChar, ptr)
      else Ok(KeyState(dot, st.endPtr, st.parsed + [TrimEnd(part)]))
  }

  /**
   * An unquoted part is read up to the next `.` or the end of the key: it
   * must be a run of bare characters and blanks, and what lands in the key
   * is the run, with the blanks before the `.` dropped.
   */
  lemma BarePartRead(s: string, end: char, st: KeyState, stale: bool)
    requires -1 <= st.dot < st.endPtr < |s| && s[st.endPtr] == end
    requires end == '=' || end == ']'
    requires var c := s[st.dot + 1]; c != ' ' && c != '\t' && c != '"' && c != '\''
    ensures var ptr := st.dot + 1;
      var e := PartEnd(IndexOf(s, '.', ptr), st.endPtr);
      var r := KeyStep(s, end, st, stale);
      && ptr <= e <= |s|
      && (r.Ok? <==> KeyPart(s[ptr..e]))
      && (r.Err? ==> r == Fail(IllegalKeyChar, ptr))
      && (r.Ok? ==>
        && |r.value.parsed| == |st.parsed| + 1
        && var k := r.value.parsed[|st.parsed|];
        && BareKey(k) && ptr + |k| <= e && s[ptr..ptr + |k|] == k
        && forall j :: ptr + |k| <= j < e ==> s[j] == ' ' || s[j] == '\t')
  {
    var ptr := st.dot + 1;
    var e := PartEnd(IndexOf(s, '.', ptr), st.endPtr);
    var part := s[ptr..e];
    assert Slice(s, ptr, e) == part;
    assert KeyStep(s, end, st, stale) ==
      if KeyPart(part) then Ok(KeyState(IndexOf(s, '.', ptr), st.endPtr, st.parsed + [TrimEnd(part)]))
      else Fail(IllegalKeyChar, ptr);
    if KeyPart(part) {
      PartInText(s, ptr, e);
    }
  }

  /** The part read from `s[ptr..e]` is written at `ptr`, and only blanks follow it up to `e`. */
  lemma PartInText(s: string, ptr: nat, e: nat)
    requires ptr <= e <= |s| && KeyPart(s[ptr..e])
    ensures var k := TrimEnd(s[ptr..e]);
      && BareKey(k) && ptr + |k| <= e && s[ptr..ptr + |k|] == k
      && forall j :: ptr + |k| <= j < e ==> s[j] == ' ' || s[j] == '\t'
  {
    var part := s[ptr..e];
    KeyPartTrim(part);
    var k := TrimEnd(part);
    assert s[ptr..ptr + |k|] == part[..|k|];
    forall j | ptr + |k| <= j < e
      ensures s[j] == ' ' || s[j] == '\t'
    {
      assert s[j] == part[j - ptr];
    }
  }

  /** One iteration of the loop of `parseKey` on a quoted part. */
  function QuotedStep(s: string, end: char, st: KeyState, stale: bool): (r: Result<KeyState>)
    requires -1 <= st.dot < st.endPtr < |s| && s[st.endPtr] == end
    requires end == '=' || end == ']'
    requires s[st.dot + 1] == '"' || s[st.dot + 1] == '\''
    ensures r.Ok? ==> r.value.dot == -1 || st.dot < r.value.dot
    ensures r.Ok? ==> st.endPtr <= r.value.endPtr < |s| && s[r.value.endPtr] == end
    ensures r.Ok? ==> |r.value.parsed| == |st.parsed| + 1 && r.value.parsed[..|st.parsed|] == st.parsed
    ensures r.Err? ==> KeyErrorKind(r.error.kind)
  {
    var ptr := st.dot + 1;
    if TripleQuoteAt(s, ptr) then Fail(MultilineKey, ptr)
    else
      var eos := GetStringEnd(s, ptr);
      if eos < 0 then Fail(UnfinishedString, ptr)
      else
        var dot := IndexOf(s, '.', eos);
        var endPtr := if st.endPtr < eos then IndexOf(s, end, eos) else st.endPtr;
        if !stale && endPtr < 0 then Fail(MissingKeyEnd, ptr)
        else
          var strEnd := Slice(s, eos, PartEnd(dot, if stale then st.endPtr else endPtr));
          var newLine := IndexOfNewline(strEnd, 0, |strEnd|);
          if newLine > -1 then Fail(NewlineInKey, ptr + dot + newLine)
          else if TrimStart(strEnd) != [] then Fail(ExtraTokensInKey, eos)
          else if endPtr < 0 then Fail(MissingKeyEnd, ptr)
          else
            var part :- ParseString(s, ptr, eos);
            Ok(KeyState(dot, endPtr, st.parsed + [part]))
  }

  /** A blank where a part may start is skipped and adds nothing to the key. */
  lemma BlankDropped(s: string, end: char, st: KeyState, stale: bool)
    requires -1 <= st.dot < st.endPtr < |s| && s[st.endPtr] == end
    requires end == '=' || end == ']'
    requires s[st.dot + 1] == ' ' || s[st.dot + 1] == '\t'
    ensures KeyStep(s, end, st, stale) == Ok(st.(dot := st.dot + 1))
  {
  }

  /**
   * A quoted part reads as the string it is, and fails as a multi-line
   * string or an unclosed one.
   */
  lemma QuotedPartRead(s: string, end: char, st: KeyState, stale: bool)
    requires -1 <= st.dot < st.endPtr < |s| && s[st.endPtr] == end
    requires end == '=' || end == ']'
    requires s[st.dot + 1] == '"' || s[st.dot + 1] == '\''
    ensures var ptr := st.dot + 1;
      var r := KeyStep(s, end, st, stale);
      && (r.Ok? ==> ParseString(s, ptr, GetStringEnd(s, ptr)) == Ok(r.value.parsed[|st.parsed|]))
      && (TripleQuoteAt(s, ptr) ==> r == Fail(MultilineKey, ptr))
      && (!TripleQuoteAt(s, ptr) && GetStringEnd(s, ptr) < 0 ==> r == Fail(UnfinishedString, ptr))
  {
    assert KeyStep(s, end, st, stale) == QuotedStep(s, end, st, stale);
    QuotedPartValue(s, end, st, stale);
    QuotedPartFails(s, end, st, stale);
  }

  lemma QuotedPartFails(s: string, end: char, st: KeyState, stale: bool)
    requires -1 <= st.dot < st.endPtr < |s| && s[st.endPtr] == end
    requires end == '=' || end == ']'
    requires s[st.dot + 1] == '"' || s[st.dot + 1] == '\''
    ensures var ptr := st.dot + 1;
      var r := QuotedStep(s, end, st, stale);
      && (TripleQuoteAt(s, ptr) ==> r == Fail(MultilineKey, ptr))
      && (!TripleQuoteAt(s, ptr) && GetStringEnd(s, ptr) < 0 ==> r == Fail(UnfinishedString, ptr))
  {
  }

  lemma QuotedPartValue(s: string, end: char, st: KeyState, stale: bool)
    requires -1 <= st.dot < st.endPtr < |s| && s[st.endPtr] == end
    requires end == '=' || end == ']'
    requires s[st.dot + 1] == '"' || s[st.dot + 1] == '\''
    ensures var ptr := st.dot + 1;
      var r := QuotedStep(s, end, st, stale);
      r.Ok? ==> ParseString(s, ptr, GetStringEnd(s, ptr)) == Ok(r.value.parsed[|st.parsed|])
  {
    var ptr := st.dot + 1;
    var r := QuotedStep(s, end, st, stale);
    if r.Ok? {
      var eos := GetStringEnd(s, ptr);
      var part := ParseString(s, ptr, eos);
      assert r.value.parsed == st.parsed + [part.value];
    }
  }

  /** The `do … while (dot + 1 && dot < endPtr)` loop, then the offset after the key. */
  function KeyLoop(s: string, end: char, st: KeyState, stale: bool): (r: Result<(seq<string>, nat)>)
    requires -1 <= st.dot < st.endPtr < |s| && s[st.endPtr] == end
    requires end == '=' || end == ']'
    ensures r.Ok? ==> |st.parsed| < |r.value.0| && r.value.0[..|st.parsed|] == st.parsed
    ensures r.Ok? ==> st.endPtr < r.value.1 <= |s|
    ensures r.Ok? ==> !CharIs(s, r.value.1, ' ') && !CharIs(s, r.value.1, '\t')
    ensures r.Err? ==> KeyErrorKind(r.error.kind)
    decreases |s| - st.dot
  {
    var st' :- KeyStep(s, end, st, stale);
    if st'.dot != -1 && st'.dot < st'.endPtr then
      var r := KeyLoop(s, end, st', stale);
      assert r.Ok? ==> r.value.0[..|st.parsed|] == r.value.0[..|st'.parsed|][..|st.parsed|];
      r
    else
      var after := SkipVoid(s, st'.endPtr + 1, true, true);
      assert !IsBlankAt(s, after.value, true);
      Ok((st'.parsed, after.value))
  }

  /**
   * `parseKey(str, ptr, end)`: the parts of the key starting at `ptr` and
   * the offset after its end character and the spaces that follow it.
   */
  function ParseKeyWith(s: string, ptr: nat, end: char, stale: bool): (r: Result<(seq<string>, nat)>)
    requires end == '=' || end == ']'
    ensures IndexOf(s, end, ptr) < 0 ==> r == Fail(MissingKeyEnd, ptr)
    ensures r.Ok? ==> |r.value.0| >= 1
    ensures r.Ok? ==> ptr < r.value.1 <= |s|
    ensures r.Ok? ==> !CharIs(s, r.value.1, ' ') && !CharIs(s, r.value.1, '\t')
    ensures r.Err? ==> KeyErrorKind(r.error.kind)
  {
    var endPtr := IndexOf(s, end, ptr);
    if endPtr < 0 then Fail(MissingKeyEnd, ptr)
    else KeyLoop(s, end, KeyState(ptr - 1, endPtr, []), stale)
  }

  /** `parseKey` with the end of the key looked for again before the trailing-token check. */
  function ParseKey(s: string, ptr: nat, end: char): (r: Result<(seq<string>, nat)>)
    requires end == '=' || end == ']'
    ensures IndexOf(s, end, ptr) < 0 ==> r == Fail(MissingKeyEnd, ptr)
    ensures r.Ok? ==> |r.value.0| >= 1 && ptr < r.value.1 <= |s|
    ensures r.Err? ==> KeyErrorKind(r.error.kind)
  {
    ParseKeyWith(s, ptr, end, false)
  }

  /** `parseKey` as written. */
  function ParseKeyAsWritten(s: string, ptr: nat, end: char): (r: Result<(seq<string>, nat)>)
    requires end == '=' || end == ']'
    ensures IndexOf(s, end, ptr) < 0 ==> r == Fail(MissingKeyEnd, ptr)
    ensures r.Ok? ==> |r.value.0| >= 1 && ptr < r.value.1 <= |s|
    ensures r.Err? ==> KeyErrorKind(r.error.kind)
  {
    ParseKeyWith(s, ptr, end, true)
  }

  /*** Bare keys ***/

  /** A bare key part: non-empty, of bare characters only. */
  predicate BareKey(k: string) {
    |k| > 0 && forall j :: 0 <= j < |k| ==> BareChar(k[j])
  }

  /** How a dotted key is written: its parts joined by `.`. */
  function JoinKey(ks: seq<string>): (r: string)
    requires |ks| > 0
    ensures |r| >= |ks[0]| && r[..|ks[0]|] == ks[0]
  {
    if |ks| == 1 then ks[0] else ks[0] + "." + JoinKey(ks[1..])
  }

  lemma BarePart(k: string)
    requires BareKey(k)
    ensures KeyPart(k) && TrimEnd(k) == k
  {
    assert BareRun(k) == |k|;
    assert !JsSpace(k[|k| - 1]);
  }

  /** `indexOf` finds the first occurrence. */
  lemma IndexOfFirst(s: string, c: char, from: nat, e: nat)
    requires from <= e < |s| && s[e] == c
    requires forall j :: from <= j < e ==> s[j] != c
    ensures IndexOf(s, c, from) == e
  {
    assert CharIs(s, e, c);
  }

  /** `indexOf` finds nothing in a stretch without `c`. */
  lemma IndexOfNone(s: string, c: char, from: nat, e: nat)
    requires from <= e < |s|
    requires forall j :: from <= j <= e ==> s[j] != c
    ensures IndexOf(s, c, from) == -1 || IndexOf(s, c, from) > e
  {
  }

  /** One iteration over a part that starts with a bare character and reads `k` up to `PartEnd(dot, endPtr)`. */
  lemma BareStep(s: string, end: char, d: nat, endPtr: nat, parsed: seq<string>, k: string, stale: bool)
    requires end == '=' || end == ']'
    requires d <= endPtr < |s| && s[endPtr] == end && BareChar(s[d])
    requires Slice(s, d, PartEnd(IndexOf(s, '.', d), endPtr)) == k && KeyPart(k) && TrimEnd(k) == k
    ensures KeyStep(s, end, KeyState(d - 1, endPtr, parsed), stale)
      == Ok(KeyState(IndexOf(s, '.', d), endPtr, parsed + [k]))
  {
  }

  /** A bare part `k` written at `d`: its first character and the text up to `e`. */
  lemma BarePartAt(s: string, d: nat, e: nat, k: string)
    requires BareKey(k) && e == d + |k| <= |s| && s[d..e] == k
    ensures BareChar(s[d]) && Slice(s, d, e) == k && KeyPart(k) && TrimEnd(k) == k
    ensures forall j :: d <= j < e ==> BareChar(s[j])
  {
    BarePart(k);
    assert s[d] == k[0];
    assert forall j :: d <= j < e ==> s[j] == k[j - d];
  }

  /** A step that leaves no part to read ends the loop. */
  lemma {:induction false} KeyLoopStops(s: string, end: char, st: KeyState, st': KeyState, stale: bool, after: nat)
    requires -1 <= st.dot < st.endPtr < |s| && s[st.endPtr] == end
    requires end == '=' || end == ']'
    requires KeyStep(s, end, st, stale) == Ok(st') && !(st'.dot != -1 && st'.dot < st'.endPtr)
    requires SkipVoid(s, st'.endPtr + 1, true, true) == Ok(after)
    ensures KeyLoop(s, end, st, stale) == Ok((st'.parsed, after))
  {
    // Only the loop is unfolded; the step is known from the precondition.
    hide KeyStep;
  }

  /** A step that stops at a `.` before the end character goes on with the next part. */
  lemma {:induction false} KeyLoopGoesOn(s: string, end: char, st: KeyState, st': KeyState, stale: bool)
    requires -1 <= st.dot < st.endPtr < |s| && s[st.endPtr] == end
    requires end == '=' || end == ']'
    requires KeyStep(s, end, st, stale) == Ok(st') && st'.dot != -1 && st'.dot < st'.endPtr
    ensures KeyLoop(s, end, st, stale) == KeyLoop(s, end, st', stale)
  {
    // Only the loop is unfolded; the step is known from the precondition.
    hide KeyStep;
  }

  /** The last part of a bare dotted key ends the loop. */
  lemma {:induction false} BareLast(s: string, end: char, d: nat, endPtr: nat, parsed: seq<string>, k: string, stale: bool, after: nat)
    requires end == '=' || end == ']'
    requires SkipVoid(s, endPtr + 1, true, true) == Ok(after)
    requires BareKey(k) && d + |k| == endPtr < |s| && s[d..endPtr] == k && s[endPtr] == end
    ensures KeyLoop(s, end, KeyState(d - 1, endPtr, parsed), stale) == Ok((parsed + [k], after))
  {
    hide KeyLoop, KeyStep;
    BarePartAt(s, d, endPtr, k);
    IndexOfNone(s, '.', d, endPtr);
    var dot := IndexOf(s, '.', d);
    assert PartEnd(dot, endPtr) == endPtr;
    BareStep(s, end, d, endPtr, parsed, k, stale);
    KeyLoopStops(s, end, KeyState(d - 1, endPtr, parsed), KeyState(dot, endPtr, parsed + [k]), stale, after);
  }

  /** A bare part followed by a `.` hands the loop on to the next part. */
  lemma {:induction false} BareNext(s: string, end: char, dot: int, e: nat, endPtr: nat, parsed: seq<string>, k: string, stale: bool)
    requires end == '=' || end == ']'
    requires -1 <= dot && e == dot + 1 + |k|
    requires BareKey(k) && e + 1 < endPtr < |s| && s[dot + 1..e] == k && s[e] == '.' && s[endPtr] == end
    ensures KeyLoop(s, end, KeyState(dot, endPtr, parsed), stale)
      == KeyLoop(s, end, KeyState(e, endPtr, parsed + [k]), stale)
  {
    hide KeyLoop, KeyStep;
    var d := dot + 1;
    BarePartAt(s, d, e, k);
    IndexOfFirst(s, '.', d, e);
    assert PartEnd(e, endPtr) == e;
    BareStep(s, end, d, endPtr, parsed, k, stale);
    KeyLoopGoesOn(s, end, KeyState(dot, endPtr, parsed), KeyState(e, endPtr, parsed + [k]), stale);
  }

  /** The bare key parts written after `dot` up to the end character are read back one by one. */
  lemma {:induction false} BareLoop(s: string, end: char, dot: int, endPtr: nat, parsed: seq<string>, ks: seq<string>, stale: bool, after: nat)
    requires end == '=' || end == ']'
    requires SkipVoid(s, endPtr + 1, true, true) == Ok(after)
    requires |ks| > 0 && forall i :: 0 <= i < |ks| ==> BareKey(ks[i])
    requires -1 <= dot && dot + 1 + |JoinKey(ks)| == endPtr < |s| && s[dot + 1..endPtr] == JoinKey(ks) && s[endPtr] == end
    ensures KeyLoop(s, end, KeyState(dot, endPtr, parsed), stale)
      == Ok((parsed + ks, after))
    decreases |ks|
  {
    // The steps are all in the helper lemmas; the bodies of the loop are not needed here.
    hide KeyLoop, KeyStep;
    var k := ks[0];
    if |ks| == 1 {
      assert JoinKey(ks) == k;
      BareLast(s, end, dot + 1, endPtr, parsed, k, stale, after);
      assert parsed + [k] == parsed + ks;
    } else {
      var e := dot + 1 + |k|;
      BareLoopNext(s, end, dot, endPtr, parsed, ks, stale);
      BareLoop(s, end, e, endPtr, parsed + [k], ks[1..], stale, after);
      AppendFirst(parsed, ks);
    }
  }

  /** The first of several bare parts is read, and the loop goes on after its `.`. */
  lemma {:induction false} BareLoopNext(s: string, end: char, dot: int, endPtr: nat, parsed: seq<string>, ks: seq<string>, stale: bool)
    requires end == '=' || end == ']'
    requires |ks| >= 2 && forall i :: 0 <= i < |ks| ==> BareKey(ks[i])
    requires -1 <= dot && dot + 1 + |JoinKey(ks)| == endPtr < |s| && s[dot + 1..endPtr] == JoinKey(ks) && s[endPtr] == end
    ensures var e := dot + 1 + |ks[0]|;
      && KeyLoop(s, end, KeyState(dot, endPtr, parsed), stale) == KeyLoop(s, end, KeyState(e, endPtr, parsed + [ks[0]]), stale)
      && e + 1 + |JoinKey(ks[1..])| == endPtr && s[e + 1..endPtr] == JoinKey(ks[1..])
      && forall i :: 0 <= i < |ks[1..]| ==> BareKey(ks[1..][i])
  {
    hide KeyLoop, KeyStep;
    var k := ks[0];
    var e := dot + 1 + |k|;
    JoinSplit(s, dot + 1, endPtr, ks);
    assert BareKey(ks[1]) && ks[1..][0] == ks[1];
    assert |JoinKey(ks[1..])| >= |ks[1]| > 0;
    BareNext(s, end, dot, e, endPtr, parsed, k, stale);
  }

  lemma AppendFirst(parsed: seq<string>, ks: seq<string>)
    requires |ks| > 0
    ensures parsed + [ks[0]] + ks[1..] == parsed + ks
  {
    assert [ks[0]] + ks[1..] == ks;
  }

  /** A dotted key written at `d` is its first part, a `.`, and the rest of the key. */
  lemma JoinSplit(s: string, d: nat, endPtr: nat, ks: seq<string>)
    requires |ks| >= 2 && d + |JoinKey(ks)| == endPtr <= |s| && s[d..endPtr] == JoinKey(ks)
    ensures var e := d + |ks[0]|;
      && e + 1 + |JoinKey(ks[1..])| == endPtr
      && s[d..e] == ks[0] && s[e] == '.' && s[e + 1..endPtr] == JoinKey(ks[1..])
  {
    var k := ks[0];
    var e := d + |k|;
    var t := JoinKey(ks[1..]);
    assert JoinKey(ks) == k + "." + t;
    assert s[d..e] == s[d..endPtr][..|k|];
    assert s[e] == s[d..endPtr][|k|];
    assert s[e + 1..endPtr] == s[d..endPtr][|k| + 1..];
  }

  /**
   * A dotted key of bare parts, followed by its end character and then
   * anything but a space or a tab, is read back part by part, and parsing
   * goes on right after the end character.
   */
  lemma BareKeyRoundTrip(ks: seq<string>, end: char, rest: string)
    requires end == '=' || end == ']'
    requires |ks| > 0 && forall i :: 0 <= i < |ks| ==> BareKey(ks[i])
    requires rest == [] || (rest[0] != ' ' && rest[0] != '\t')
    ensures var s := JoinKey(ks) + [end] + rest;
      && ParseKey(s, 0, end) == Ok((ks, |JoinKey(ks)| + 1))
      && ParseKeyAsWritten(s, 0, end) == Ok((ks, |JoinKey(ks)| + 1))
  {
    BareKeyWith(ks, end, rest, false);
    BareKeyWith(ks, end, rest, true);
  }

  lemma BareKeyWith(ks: seq<string>, end: char, rest: string, stale: bool)
    requires end == '=' || end == ']'
    requires |ks| > 0 && forall i :: 0 <= i < |ks| ==> BareKey(ks[i])
    requires rest == [] || (rest[0] != ' ' && rest[0] != '\t')
    ensures var s := JoinKey(ks) + [end] + rest;
      ParseKeyWith(s, 0, end, stale) == Ok((ks, |JoinKey(ks)| + 1))
  {
    hide ParseKeyWith;
    var w := JoinKey(ks);
    var s := w + [end] + rest;
    assert s[0..|w|] == w;
    BareKeyAt(s, 0, ks, end, stale);
  }

  /** A dotted key of bare parts written at offset `d` of a document, followed by its end character. */
  lemma BareKeyAt(s: string, d: nat, ks: seq<string>, end: char, stale: bool)
    requires end == '=' || end == ']'
    requires |ks| > 0 && forall i :: 0 <= i < |ks| ==> BareKey(ks[i])
    requires d + |JoinKey(ks)| < |s| && s[d..d + |JoinKey(ks)|] == JoinKey(ks) && s[d + |JoinKey(ks)|] == end
    requires !CharIs(s, d + |JoinKey(ks)| + 1, ' ') && !CharIs(s, d + |JoinKey(ks)| + 1, '\t')
    ensures ParseKeyWith(s, d, end, stale) == Ok((ks, d + |JoinKey(ks)| + 1))
  {
    hide KeyLoop, KeyStep;
    var w := JoinKey(ks);
    var e := d + |w|;
    DottedChars(ks);
    assert forall j :: d <= j < e ==> s[j] == w[j - d] && s[j] != end;
    IndexOfFirst(s, end, d, e);
    assert SkipBlanks(s, e + 1, true) == e + 1;
    assert SkipVoid(s, e + 1, true, true) == Ok(e + 1);
    BareLoop(s, end, d - 1, e, [], ks, stale, e + 1);
    assert [] + ks == ks;
  }

  lemma {:induction false} DottedChars(ks: seq<string>)
    requires |ks| > 0 && forall i :: 0 <= i < |ks| ==> BareKey(ks[i])
    ensures forall j :: 0 <= j < |JoinKey(ks)| ==> BareChar(JoinKey(ks)[j]) || JoinKey(ks)[j] == '.'
    decreases |ks|
  {
    if |ks| > 1 {
      DottedChars(ks[1..]);
      var k := ks[0];
      var t := JoinKey(ks[1..]);
      assert JoinKey(ks) == k + "." + t;
      assert forall j :: |k| < j < |JoinKey(ks)| ==> JoinKey(ks)[j] == t[j - |k| - 1];
    }
  }

  /*** A quoted part followed by stray text ***/

  /** `"a=b" x.c = 1`: the `=` inside the string is the first `=` of the line. */
  const StaleKey: string := "\"a=b\" x.c = 1"

  /** The characters of `StaleKey`, one by one. */
  predicate StaleKeyShape(s: string) {
    && |s| == 13
    && s[0] == '"' && s[1] == 'a' && s[2] == '=' && s[3] == 'b' && s[4] == '"' && s[5] == ' ' && s[6] == 'x'
    && s[7] == '.' && s[8] == 'c' && s[9] == ' ' && s[10] == '=' && s[11] == ' ' && s[12] == '1'
  }

  lemma StaleKeyChars()
    ensures StaleKeyShape(StaleKey)
  {
  }

  /** The quoted part `"a=b"` ends at offset 5 and reads `a=b`. */
  lemma StaleKeyString(s: string)
    requires StaleKeyShape(s)
    ensures GetStringEnd(s, 0) == 5
    ensures ParseString(s, 0, 5) == Ok("a=b")
  {
    var t := "\"";
    assert !TripleQuoteAt(s, 0);
    assert OccursAt(s, t, 4);
    assert IndexOfSeq(s, t, 4) == 4;
    assert IndexOfSeq(s, t, 3) == 4 by { assert s[3..4] != t; }
    assert IndexOfSeq(s, t, 2) == 4 by { assert s[2..3] != t; }
    assert IndexOfSeq(s, t, 1) == 4 by { assert s[1..2] != t; }
    assert BackslashRun(s, 4) == 0;
    assert FindClosing(s, t, '"', 1) == 4;
    var q := Quoting(false, false);
    assert QuotingAt(s, 0) == q;
    assert BodyStart(s, 0) == 1;
    var d := Decoder(1, false, 0, "", 1);
    assert PlainAt(s, q, 1) && PlainAt(s, q, 2) && PlainAt(s, q, 3);
    LoopPlainRun(s, q, d, 4, 5, true);
    assert s[1..4] == "a=b";
    assert "" + Slice(s, 1, 4) == "a=b";
  }

  /** The first iteration: the quoted part, with the stray ` x` checked or not. */
  lemma StaleKeyFirstStep(s: string)
    requires StaleKeyShape(s)
    ensures KeyStep(s, '=', KeyState(-1, 2, []), true) == Ok(KeyState(7, 10, ["a=b"]))
    ensures KeyStep(s, '=', KeyState(-1, 2, []), false) == Fail(ExtraTokensInKey, 5)
  {
    StaleKeyQuoted(s);
  }

  lemma StaleKeyQuoted(s: string)
    requires StaleKeyShape(s)
    ensures QuotedStep(s, '=', KeyState(-1, 2, []), true) == Ok(KeyState(7, 10, ["a=b"]))
    ensures QuotedStep(s, '=', KeyState(-1, 2, []), false) == Fail(ExtraTokensInKey, 5)
  {
    StaleKeyString(s);
    StaleKeyUnchecked(s);
    StaleKeyChecked(s);
  }

  /** Looking for the end of the key only afterwards, nothing between the string and the `.` is read. */
  lemma StaleKeyUnchecked(s: string)
    requires StaleKeyShape(s) && GetStringEnd(s, 0) == 5 && ParseString(s, 0, 5) == Ok("a=b")
    ensures QuotedStep(s, '=', KeyState(-1, 2, []), true) == Ok(KeyState(7, 10, ["a=b"]))
  {
    hide ParseString;
    IndexOfFirst(s, '.', 5, 7);
    IndexOfFirst(s, '=', 5, 10);
    assert Slice(s, 5, 2) == [];
    assert IndexOfNewline([], 0, 0) == -1;
  }

  /** Looking for the end of the key first, the ` x` before the `.` is read and refused. */
  lemma StaleKeyChecked(s: string)
    requires StaleKeyShape(s) && GetStringEnd(s, 0) == 5
    ensures QuotedStep(s, '=', KeyState(-1, 2, []), false) == Fail(ExtraTokensInKey, 5)
  {
    hide ParseString;
    IndexOfFirst(s, '.', 5, 7);
    IndexOfFirst(s, '=', 5, 10);
    var gap := Slice(s, 5, 7);
    assert gap == " x";
    assert IndexOf(gap, '\n', 0) == -1;
    assert TrimStart(gap) != [] by {
      assert !JsSpace(gap[1]);
    }
  }

  /** The second iteration: the bare part `c`, then the end of the key. */
  lemma StaleKeySecondStep(s: string)
    requires StaleKeyShape(s)
    ensures KeyLoop(s, '=', KeyState(7, 10, ["a=b"]), true) == Ok((["a=b", "c"], 12))
  {
    IndexOfNone(s, '.', 8, 12);
    var part := Slice(s, 8, 10);
    assert part == "c ";
    assert BareRun(part) == 1;
    assert KeyPart(part);
    assert TrimEnd(part) == "c";
    assert IndexOf(s, '.', 8) == -1;
    assert PartEnd(-1, 10) == 10;
    var r := KeyStep(s, '=', KeyState(7, 10, ["a=b"]), true);
    assert r == Ok(KeyState(-1, 10, ["a=b"] + [TrimEnd(part)]));
    assert ["a=b"] + ["c"] == ["a=b", "c"];
    assert SkipBlanks(s, 11, true) == 12;
    assert SkipVoid(s, 11, true, true) == Ok(12);
  }

  /**
   * `"a=b" x.c = 1`: as written the key is `a=b`.`c` and the stray `x`
   * between the string and the `.` is dropped without a word; looking for
   * the end of the key first, the `x` is reported as an extra token.
   */
  lemma StaleKeyDropsToken()
    ensures ParseKeyAsWritten(StaleKey, 0, '=') == Ok((["a=b", "c"], 12))
    ensures ParseKey(StaleKey, 0, '=') == Fail(ExtraTokensInKey, 5)
  {
    var s := StaleKey;
    StaleKeyChars();
    IndexOfFirst(s, '=', 0, 2);
    StaleKeyFirstStep(s);
    StaleKeySecondStep(s);
  }
}
