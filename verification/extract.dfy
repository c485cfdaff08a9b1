/**
 * `extractValue`, `parseArray` and `parseInlineTable`: the value that
 * starts at an offset, and the offset where parsing goes on. The three are
 * mutually recursive; `depth` bounds the nesting of arrays and inline
 * tables.
 */
module Extract {
  import opened Results
  import opened Text
  import opened Cursor
  import opened StringLit
  import opened Values
  import opened Scalars
  import opened KeyParser
  import opened Tables

  /** The options of `parse` that reach values, and what the `Date` constructor accepts. */
  datatype Options = Options(mode: BigIntMode, dateOk: string -> bool)

  /*** sliceAndTrimEndOf ***/

  /**
   * A bare value's text up to the first `#`, trimmed at its end, and where
   * that `#` is (-1 for none).
   */
  function CutAndTrim(value: string): (r: (string, int))
    ensures -1 <= r.1 < |value| && |r.0| <= |value|
  {
    var ci := IndexOf(value, '#', 0);
    var body := if ci > -1 then value[..ci] else value;
    (TrimEnd(body), ci)
  }

  /**
   * The text is a prefix of the value that holds no `#` and does not end in
   * white space; the `#` found is the first one.
   */
  lemma CutAndTrimMeaning(value: string)
    ensures var r := CutAndTrim(value);
      && r.0 == value[..|r.0|]
      && (r.1 >= 0 ==> value[r.1] == '#' && |r.0| <= r.1)
      && (r.1 == -1 ==> forall j :: 0 <= j < |value| ==> value[j] != '#')
      && (forall j :: 0 <= j < |r.0| ==> r.0[j] != '#')
      && (r.0 == [] || !JsSpace(r.0[|r.0| - 1]))
  {
    var ci := IndexOf(value, '#', 0);
    IndexOfSkips(value, '#', 0);
    var body := if ci > -1 then value[..ci] else value;
    var trimmed := TrimEnd(body);
    assert trimmed == body[..|trimmed|];
    assert trimmed == value[..|trimmed|];
  }

  /**
   * `sliceAndTrimEndOf(str, start, end, allowNewLines)`: the text of a bare
   * value between `start` and `end`, cut at a `#` and trimmed at its end,
   * and where the `#` was (-1 when there is none). The comment is checked
   * for banned characters; `sliceAndTrimEndOf` checks the comment at the offset of
   * the `#` counted from the start of the DOCUMENT rather than from `start`
   * (`AsWritten`). Unless allowed, a line break after the value fails.
   */
  function SliceAndTrimEndOf(s: string, start: nat, end: nat, allowNewLines: bool, rd: Reading): (r: Result<(string, int)>)
    requires end <= |s|
    ensures r.Ok? ==> r.value == CutAndTrim(Slice(s, start, end))
    ensures r.Err? ==> r.error.kind in {CommentControlChar, NewlineInInlineTable}
  {
    var value := Slice(s, start, end);
    var ct := CutAndTrim(value);
    var ci := ct.1;
    var base := if rd == AsWritten then 0 else start;
    var checked :- if ci > -1 then SkipComment(s, base + ci) else Ok(0);
    var body := if ci > -1 then value[..ci] else value;
    var newline := IndexOf(body, '\n', |ct.0|);
    if !allowNewLines && newline > -1 then Fail(NewlineInInlineTable, start + newline)
    else Ok(ct)
  }

  /**
   * Read correctly, the comment after a bare value is accepted exactly when
   * it holds no banned character, and a bad one is reported at its `#`.
   */
  lemma SliceAndTrimEndOfComment(s: string, start: nat, end: nat, allowNewLines: bool)
    requires end <= |s|
    ensures var r := SliceAndTrimEndOf(s, start, end, allowNewLines, Corrected);
      var ci := CutAndTrim(Slice(s, start, end)).1;
      && (r.Ok? && ci >= 0 ==> !BadComment(s, start + ci))
      && (ci >= 0 && BadComment(s, start + ci) ==> r == Fail(CommentControlChar, start + ci))
  {
    var ci := CutAndTrim(Slice(s, start, end)).1;
    if ci >= 0 {
      var c := SkipComment(s, start + ci);
      assert c.Err? <==> BadComment(s, start + ci);
    }
  }

  /** Unless line breaks are allowed, none follows the value before its comment. */
  lemma SliceAndTrimEndOfNewline(s: string, start: nat, end: nat, rd: Reading)
    requires end <= |s|
    ensures var r := SliceAndTrimEndOf(s, start, end, false, rd);
      var value := Slice(s, start, end);
      r.Ok? ==> forall j :: |r.value.0| <= j < |value| && (r.value.1 == -1 || j < r.value.1) ==> value[j] != '\n'
  {
    var value := Slice(s, start, end);
    CutAndTrimMeaning(value);
    var ct := CutAndTrim(value);
    var body := if ct.1 > -1 then value[..ct.1] else value;
    IndexOfSkips(body, '\n', |ct.0|);
  }

  /**
   * The bare value `1 #` followed by the control character U+0001, written
   * right after a line break at offset 2: the comment's `#` is at 2 within
   * the value, and offset 2 of the document is that line break.
   */
  predicate MisplacedCommentShape(s: string) {
    |s| == 7 && s[2] == '\n' && s[3] == '1' && s[4] == ' ' && s[5] == '#' && s[6] == '\U{1}'
  }

  /** As written, the comment is checked from the line break, so its control character passes. */
  lemma BadCommentAcceptedAsWritten(s: string)
    requires MisplacedCommentShape(s)
    ensures SliceAndTrimEndOf(s, 3, 7, true, AsWritten) == Ok(("1", 2))
  {
    var v := s[3..7];
    assert Slice(s, 3, 7) == v;
    assert CharIs(v, 2, '#') && !CharIs(v, 0, '#') && !CharIs(v, 1, '#');
    assert IndexOf(v, '#', 0) == 2;
    assert v[..2] == s[3..5];
    assert TrimEnd(s[3..5]) == "1" by { assert s[3..5][..1] == "1"; }
  }

  /** Read correctly, the control character in the comment is reported at the `#`. */
  lemma BadCommentRefused(s: string)
    requires MisplacedCommentShape(s)
    ensures SliceAndTrimEndOf(s, 3, 7, true, Corrected) == Fail(CommentControlChar, 5)
  {
    var v := s[3..7];
    assert Slice(s, 3, 7) == v;
    assert CharIs(v, 2, '#') && !CharIs(v, 0, '#') && !CharIs(v, 1, '#');
    assert IndexOf(v, '#', 0) == 2;
    assert BadCommentChar(s, 5, 6);
  }

  /*** extractValue ***/

  /** What `extractValue` may be told ends the structure it is in. */
  predicate EndChar(end: Option<char>) {
    end == None || end == Some(']') || end == Some('}')
  }

  /**
   * Where the text of a bare value is cut: before a `,` that ends it, which
   * `extractValue` drops even at the top level (`AsWritten`).
   */
  function CutEnd(s: string, endPtr: nat, end: Option<char>, rd: Reading): (r: nat)
    requires endPtr <= |s|
    ensures r == endPtr || (r == endPtr - 1 && s[r] == ',')
    ensures r == endPtr - 1 <==> CharIs(s, endPtr - 1, ',') && (end.Some? || rd == AsWritten)
  {
    if CharIs(s, endPtr - 1, ',') && (end.Some? || rd == AsWritten) then endPtr - 1 else endPtr
  }

  /**
   * The text of a bare value in the branch of `extractValue` for bare values,
   * and where parsing goes on: the value runs to the next `,` or end
   * character (or, at the top level, the end of the line). `extractValue` drops
   * a `,` just before that point even at the top level, where no comma may
   * follow a value (`AsWritten`).
   */
  function BareText(s: string, ptr: nat, end: Option<char>, rd: Reading): (r: Result<(string, nat)>)
    requires ptr <= |s| && EndChar(end)
    ensures r.Ok? ==> ptr < r.value.1 <= |s| && r.value.0 != []
    ensures var u := SkipUntil(s, ptr, ',', end, false);
      && (u.Err? ==> r == Err(u.error))
      && (u.Ok? ==>
           var sl := SliceAndTrimEndOf(s, ptr, CutEnd(s, u.value, end, rd), end == Some(']'), rd);
           && (sl.Err? ==> r == Err(sl.error))
           && (sl.Ok? && sl.value.0 == [] ==> r == Fail(MissingValue, ptr))
           && (sl.Ok? && sl.value.0 != [] && (end.None? || sl.value.1 == -1) ==> r == Ok((sl.value.0, u.value)))
           && (r.Ok? ==> sl.Ok? && r.value.0 == sl.value.0)
           && (r.Ok? && (end.None? || sl.value.1 == -1) ==> r.value.1 == u.value)
           // Otherwise parsing goes on where `Resume` says.
           && (sl.Ok? && sl.value.0 != [] ==>
                var n := Resume(s, ptr, sl.value.1, u.value, end);
                && (n.Err? ==> r == Err(n.error))
                && (n.Ok? ==> r == Ok((sl.value.0, n.value)))))
  {
    var endPtr :- SkipUntil(s, ptr, ',', end, false);
    var sliceEnd := CutEnd(s, endPtr, end, rd);
    var sl :- SliceAndTrimEndOf(s, ptr, sliceEnd, end == Some(']'), rd);
    if sl.0 == [] then Fail(MissingValue, ptr)
    else
      var next :- Resume(s, ptr, sl.1, endPtr, end);
      Ok((sl.0, next))
  }

  /**
   * Where parsing goes on after a bare value whose comment, if any, starts
   * `commentAt` characters after `ptr`: inside a structure, after a comment,
   * past the blank lines and comments that follow and one `,`; otherwise at
   * `endPtr`.
   */
  function Resume(s: string, ptr: nat, commentAt: int, endPtr: nat, end: Option<char>): (r: Result<nat>)
    ensures !(end.Some? && commentAt > -1) ==> r == Ok(endPtr)
    ensures end.Some? && commentAt > -1 ==>
      var q := SkipVoid(s, ptr + commentAt, false, false);
      && (q.Err? ==> r == Err(q.error))
      && (q.Ok? ==> r == Ok(if CharIs(s, q.value, ',') then q.value + 1 else q.value))
  {
    if end.Some? && commentAt > -1 then
      var p :- SkipVoid(s, ptr + commentAt, false, false);
      Ok(if CharIs(s, p, ',') then p + 1 else p)
    else Ok(endPtr)
  }

  /** The bare-value branch of `extractValue`: the text is classified by `parseValue`. */
  function BareValue(s: string, ptr: nat, end: Option<char>, o: Options, rd: Reading): (r: Result<(Value, nat)>)
    requires ptr <= |s| && EndChar(end)
    ensures r.Ok? ==> ptr < r.value.1 <= |s|
    ensures r.Ok? <==> BareText(s, ptr, end, rd).Ok? && ParseValue(BareText(s, ptr, end, rd).value.0, ptr, o.mode, o.dateOk).Ok?
    ensures r.Ok? ==>
      && r.value.0 == ParseValue(BareText(s, ptr, end, rd).value.0, ptr, o.mode, o.dateOk).value
      && r.value.1 == BareText(s, ptr, end, rd).value.1
    ensures BareText(s, ptr, end, rd).Ok? && ParseValue(BareText(s, ptr, end, rd).value.0, ptr, o.mode, o.dateOk).Err? ==>
      r.Err? && r.error.ptr == ptr
  {
    var t :- BareText(s, ptr, end, rd);
    var v :- ParseValue(t.0, ptr, o.mode, o.dateOk);
    Ok((v, t.1))
  }

  /**
   * Text a bare value may be written as at the top level: non-empty, with no
   * `#`, `,` or `\n`, and not ending in white space.
   */
  predicate BareValueText(t: string) {
    && t != [] && !JsSpace(t[|t| - 1])
    && forall j :: 0 <= j < |t| ==> t[j] != '#' && t[j] != ',' && t[j] != '\n'
  }

  /**
   * A bare value written at `ptr` at the top level and followed by a line
   * break or the end of the document reads back as its text, and parsing
   * goes on at that line break, in both readings.
   */
  lemma BareTextReadsBack(s: string, ptr: nat, t: string, rd: Reading)
    requires ptr + |t| <= |s| && s[ptr..ptr + |t|] == t && BareValueText(t)
    requires ptr + |t| == |s| || NewlineAt(s, ptr + |t|)
    ensures BareText(s, ptr, None, rd) == Ok((t, ptr + |t|))
  {
    hide BareText, SkipUntil, SliceAndTrimEndOf, Resume, CutEnd;
    var k := ptr + |t|;
    LineEndAfter(s, ptr, t);
    assert CutEnd(s, k, None, rd) == k by {
      assert s[k - 1] == t[|t| - 1];
    }
    PlainSliceAndTrim(s, ptr, t, rd);
    BareTextPlain(s, ptr, k, t, rd);
  }

  /** At the top level, a clean cut with no comment is the value's text. */
  lemma BareTextPlain(s: string, ptr: nat, k: nat, t: string, rd: Reading)
    requires ptr <= |s| && t != []
    requires SkipUntil(s, ptr, ',', None, false) == Ok(k) && CutEnd(s, k, None, rd) == k
    requires SliceAndTrimEndOf(s, ptr, k, false, rd) == Ok((t, -1))
    ensures BareText(s, ptr, None, rd) == Ok((t, k))
  {
    hide BareText, SkipUntil, SliceAndTrimEndOf, CutEnd;
  }

  /** At the top level, a bare value's text runs to the line break after it. */
  lemma LineEndAfter(s: string, ptr: nat, t: string)
    requires ptr + |t| <= |s| && s[ptr..ptr + |t|] == t && BareValueText(t)
    requires ptr + |t| == |s| || NewlineAt(s, ptr + |t|)
    ensures SkipUntil(s, ptr, ',', None, false) == Ok(ptr + |t|)
  {
    var k := ptr + |t|;
    forall j | ptr <= j < k
      ensures s[j] != '\n'
    {
      assert s[j] == t[j - ptr];
    }
    assert k > 0 && s[k - 1] == t[|t| - 1];
    IndexOfSkips(s, '\n', ptr);
  }

  /** Such text is its own cut and trimmed value, with no comment. */
  lemma PlainSliceAndTrim(s: string, ptr: nat, t: string, rd: Reading)
    requires ptr + |t| <= |s| && s[ptr..ptr + |t|] == t && BareValueText(t)
    ensures SliceAndTrimEndOf(s, ptr, ptr + |t|, false, rd) == Ok((t, -1))
  {
    assert Slice(s, ptr, ptr + |t|) == t;
    IndexOfSkips(t, '#', 0);
    assert IndexOf(t, '#', 0) == -1;
    assert TrimEnd(t) == t;
    assert CutAndTrim(t) == (t, -1);
    assert IndexOf(t, '\n', |t|) == -1;
  }

  /** Such a value is what `parseValue` makes of its text, and parsing goes on at the line break. */
  lemma BareValueReadsBack(s: string, ptr: nat, t: string, o: Options, rd: Reading)
    requires ptr + |t| <= |s| && s[ptr..ptr + |t|] == t && BareValueText(t)
    requires ptr + |t| == |s| || NewlineAt(s, ptr + |t|)
    ensures BareValue(s, ptr, None, o, rd) ==
      var v := ParseValue(t, ptr, o.mode, o.dateOk);
      if v.Ok? then Ok((v.value, ptr + |t|)) else Err(v.error)
  {
    hide BareText, ParseValue;
    BareTextReadsBack(s, ptr, t, rd);
  }

  /**
   * `extractValue(str, ptr, end, depth)`: the value starting at `ptr` and
   * the offset after it (inside a structure, after the `,` that follows
   * it). `end` is `]` in an array, `}` in an inline table, none at the top
   * level. A string that is never closed fails here; `extractValue` reads on
   * with an end offset of -1 and fails later.
   */
  function ExtractValue(s: string, ptr: nat, end: Option<char>, depth: nat, o: Options, rd: Reading): (r: Result<(Value, nat)>)
    requires ptr <= |s| && EndChar(end)
    ensures r.Ok? ==> ptr < r.value.1 <= |s|
    ensures depth == 0 ==> r == Fail(TooDeep, ptr)
    ensures r.Ok? ==> FitsDepth(r.value.0, depth)
    decreases depth, 2, 0
  {
    if depth == 0 then Fail(TooDeep, ptr)
    else if CharIs(s, ptr, '[') || CharIs(s, ptr, '{') then
      var ve :-
        if s[ptr] == '[' then ArrayLoop(s, ptr + 1, depth, o, rd, [])
        else InlineLoop(s, ptr + 1, depth, o, rd, EmptyTable(Dotted), 0);
      var e := ve.1;
      var next :- if end.Some? then SkipUntil(s, e, ',', end, false) else Ok(e);
      if e != next && end == Some('}') && IndexOfNewline(s, e, next) > -1 then
        Fail(NewlineInInlineTable, IndexOfNewline(s, e, next))
      else Ok((ve.0, next))
    else if CharIs(s, ptr, '"') || CharIs(s, ptr, '\'') then StringValue(s, ptr, end, rd)
    else BareValue(s, ptr, end, o, rd)
  }

  /** No line break and no `#` in a digit followed by a `,` that ends the document. */
  lemma DigitCommaText(s: string, ptr: nat)
    requires ptr + 2 == |s| && IsDigit(s[ptr]) && s[ptr + 1] == ','
    ensures SkipUntil(s, ptr, ',', None, false) == Ok(|s|)
    ensures CutAndTrim(Slice(s, ptr, ptr + 1)) == ([s[ptr]], -1)
    ensures CutAndTrim(Slice(s, ptr, ptr + 2)) == ([s[ptr], ','], -1)
  {
    assert IndexOfNewline(s, ptr, |s|) == -1;
    assert Slice(s, ptr, ptr + 1) == [s[ptr]];
    assert Slice(s, ptr, ptr + 2) == [s[ptr], ','];
    assert IndexOf([s[ptr]], '#', 0) == -1;
    assert IndexOf([s[ptr], ','], '#', 0) == -1;
  }

  /** A digit and then a `,` closing the document, as in `x = 1,`: as written, the `,` is dropped. */
  lemma TopLevelCommaDropped(s: string, ptr: nat)
    requires ptr + 2 == |s| && IsDigit(s[ptr]) && s[ptr + 1] == ','
    ensures BareText(s, ptr, None, AsWritten) == Ok(([s[ptr]], |s|))
  {
    DigitCommaText(s, ptr);
  }

  /** Read correctly, the `,` stays in the value's text. */
  lemma TopLevelCommaKept(s: string, ptr: nat)
    requires ptr + 2 == |s| && IsDigit(s[ptr]) && s[ptr + 1] == ','
    ensures BareText(s, ptr, None, Corrected) == Ok(([s[ptr], ','], |s|))
  {
    DigitCommaText(s, ptr);
  }

  /** `x = 1,`: accepted as written, refused once the `,` is kept. */
  lemma TopLevelCommaValue(s: string, ptr: nat, o: Options)
    requires ptr + 2 == |s| && IsDigit(s[ptr]) && s[ptr + 1] == ','
    ensures BareValue(s, ptr, None, o, AsWritten) == (var v :- ParseValue([s[ptr]], ptr, o.mode, o.dateOk); Ok((v, |s|)))
    ensures BareValue(s, ptr, None, o, Corrected) == Fail(InvalidValue, ptr)
  {
    TopLevelCommaDropped(s, ptr);
    TopLevelCommaKept(s, ptr);
    DigitCommaInvalid(s[ptr], ptr, o.mode, o.dateOk);
  }

  /**
   * A string value at `ptr`; inside an array or an inline table, only
   * spaces, tabs, comments (and line breaks, outside an inline table) may
   * come before the separator or the closing bracket, and a `,` is stepped over.
   */
  function StringValue(s: string, ptr: nat, end: Option<char>, rd: Reading): (r: Result<(Value, nat)>)
    requires ptr < |s| && (s[ptr] == '"' || s[ptr] == '\'') && EndChar(end)
    ensures r.Ok? ==> ptr < r.value.1 <= |s| && r.value.0.Str?
    ensures GetStringEnd(s, ptr) < 0 ==> r == Fail(UnfinishedString, ptr)
    ensures r.Ok? ==>
      var e := GetStringEnd(s, ptr);
      && 0 <= e <= |s|
      && ParseStringWith(s, ptr, e, rd == Corrected) == Ok(r.value.0.s)
      && (end.None? ==> r.value.1 == e)
    ensures
      var e := GetStringEnd(s, ptr);
      && end.Some? && 0 <= e <= |s| && ParseStringWith(s, ptr, e, rd == Corrected).Ok?
      && SkipVoid(s, e, end != Some(']'), false).Ok?
      ==>
      var q := SkipVoid(s, e, end != Some(']'), false).value;
      q < |s| && s[q] != ',' && s[q] != end.value && s[q] != '\n' && s[q] != '\r' ==> r == Fail(UnexpectedCharacter, q)
  {
    var e := GetStringEnd(s, ptr);
    if e < 0 then Fail(UnfinishedString, ptr)
    else
      var str :- ParseStringWith(s, ptr, e, rd == Corrected);
      if end.None? then Ok((Str(str), e))
      else
        var p :- SkipVoid(s, e, end != Some(']'), false);
        if p < |s| && s[p] != ',' && s[p] != end.value && s[p] != '\n' && s[p] != '\r' then Fail(UnexpectedCharacter, p)
        else Ok((Str(str), if CharIs(s, p, ',') then p + 1 else p))
  }

  /** A value that succeeds ends just after `c`. */
  predicate ClosedBy(s: string, r: Result<(Value, nat)>, c: char) {
    r.Ok? ==> 0 < r.value.1 <= |s| && s[r.value.1 - 1] == c
  }

  /**
   * The loop of `parseArray` from offset `p` on, with the items read so
   * far: white space and comments are skipped, a `,` where a value should
   * be fails, and `]` ends the array.
   */
  function ArrayLoop(s: string, p: nat, depth: nat, o: Options, rd: Reading, items: seq<Value>): (r: Result<(Value, nat)>)
    requires p <= |s| && depth >= 1
    ensures r.Ok? ==> p < r.value.1 <= |s|
    ensures r.Ok? ==> r.value.0.List? && items <= r.value.0.items
    ensures ClosedBy(s, r, ']')
    ensures p < |s| && s[p] == ',' ==> r == Fail(CommaInArray, p)
    ensures (forall j :: p <= j < |s| ==> s[j] != ']') ==> r.Err?
    ensures r.Ok? && (forall x :: x in items ==> FitsDepth(x, depth - 1)) ==> FitsDepth(r.value.0, depth)
    decreases depth, 1, |s| - p
  {
    if p == |s| then Fail(UnfinishedArray, p + 1)
    else
      var c := s[p];
      if c == ']' then Ok((List(items), p + 1))
      else if c == ',' then Fail(CommaInArray, p)
      else if c == '#' then
        var q :- SkipComment(s, p + 1);
        ArrayLoop(s, q, depth, o, rd, items)
      else if c == ' ' || c == '\t' || c == '\n' || c == '\r' then ArrayLoop(s, p + 1, depth, o, rd, items)
      else
        var ve :- ExtractValue(s, p, Some(']'), depth - 1, o, rd);
        ArrayLoop(s, ve.1, depth, o, rd, items + [ve.0])
  }

  /*** Inline tables ***/

  /**
   * May the inline table being built take `key`? Each key before the last
   * must be free or name a table created by an earlier dotted key; the last
   * must be free.
   */
  predicate InlineFree(t: Tbl, key: seq<string>)
    requires |key| > 0
    decreases |key|
  {
    match Lookup(t.kids, key[0])
    case None => true
    case Some(Sub(c)) => |key| > 1 && InlineFree(c, key[1..])
    case Some(_) => false
  }

  /** `t[k] = value` at the end of the key, creating the tables before it. */
  function InlineAssign(t: Tbl, key: seq<string>, v: Value): (r: Tbl)
    requires |key| > 0 && InlineFree(t, key)
    ensures r.kind == t.kind && r.defined == t.defined
    ensures Lookup(r.kids, key[0]).Some?
    ensures forall k :: k != key[0] ==> Lookup(r.kids, k) == Lookup(t.kids, k)
    decreases |key|
  {
    var k := key[0];
    if |key| == 1 then t.(kids := Put(t.kids, k, Leaf(v)))
    else
      match Lookup(t.kids, k)
      case None => t.(kids := Put(t.kids, k, Sub(InlineAssign(EmptyTable(Dotted), key[1..], v))))
      case Some(Sub(c)) => t.(kids := Put(t.kids, k, Sub(InlineAssign(c, key[1..], v))))
  }

  /**
   * The loop of `parseInlineTable` from offset `p` on: `t` is the table so
   * far and `comma` the offset of a `,` that directly followed the last value
   * (0 for none). A line break, a comment or a `,` where a key should be
   * fails; a `,` before the `}` fails as a trailing comma.
   */
  function InlineLoop(s: string, p: nat, depth: nat, o: Options, rd: Reading, t: Tbl, comma: nat): (r: Result<(Value, nat)>)
    requires p <= |s| && depth >= 1
    ensures r.Ok? ==> p < r.value.1 <= |s|
    ensures r.Ok? ==> r.value.0.Table?
    ensures ClosedBy(s, r, '}')
    ensures r.Ok? && TblFits(t, depth) ==> FitsDepth(r.value.0, depth)
    decreases depth, 1, |s| - p
  {
    if p == |s| then
      if comma > 0 then Fail(TrailingComma, comma) else Fail(UnfinishedTable, p + 1)
    else
      var c := s[p];
      if c == '}' then
        if comma > 0 then Fail(TrailingComma, comma) else Ok((Table(t), p + 1))
      else if c == '\n' then Fail(NewlineInInlineTable, p)
      else if c == '#' then Fail(CommentInInlineTable, p)
      else if c == ',' then Fail(CommaInInlineTable, p)
      else if c == ' ' || c == '\t' then InlineLoop(s, p + 1, depth, o, rd, t, comma)
      else
        var te :- InlineEntry(s, p, depth, o, rd, t);
        var e := te.1;
        InlineLoop(s, e, depth, o, rd, te.0, if CharIs(s, e - 1, ',') then e - 1 else 0)
  }

  /**
   * Where a key should start, a line break, a comment or a `,` fails, and
   * after a `,` the end of the table fails as a trailing comma.
   */
  lemma InlineLoopRejects(s: string, p: nat, depth: nat, o: Options, rd: Reading, t: Tbl, comma: nat)
    requires p <= |s| && depth >= 1
    ensures var r := InlineLoop(s, p, depth, o, rd, t, comma);
      && (p < |s| && s[p] == '\n' ==> r == Fail(NewlineInInlineTable, p))
      && (p < |s| && s[p] == '#' ==> r == Fail(CommentInInlineTable, p))
      && (p < |s| && s[p] == ',' ==> r == Fail(CommaInInlineTable, p))
      && (comma > 0 && (p == |s| || s[p] == '}') ==> r == Fail(TrailingComma, comma))
      && (comma == 0 && p == |s| ==> r == Fail(UnfinishedTable, p + 1))
  {
  }

  /**
   * One key/value pair of an inline table starting at `p`: the key must be
   * free in the table so far (checked before the value is read); the value
   * ends at the `,` after it or at the `}`.
   */
  function InlineEntry(s: string, p: nat, depth: nat, o: Options, rd: Reading, t: Tbl): (r: Result<(Tbl, nat)>)
    requires p < |s| && depth >= 1
    ensures r.Ok? ==> p < r.value.1 <= |s|
    ensures var k := ParseKeyWith(s, p, '=', rd == AsWritten);
      k.Ok? && !InlineFree(t, k.value.0) ==> r == Fail(ValueRedefinition, p + 1)
    ensures r.Ok? ==>
      var k := ParseKeyWith(s, p, '=', rd == AsWritten);
      && k.Ok? && InlineFree(t, k.value.0)
      && exists v :: r.value.0 == InlineAssign(t, k.value.0, v)
    ensures r.Ok? && TblFits(t, depth) ==> TblFits(r.value.0, depth)
    decreases depth, 0, 0
  {
    var ke :- ParseKeyWith(s, p, '=', rd == AsWritten);
    if !InlineFree(t, ke.0) then Fail(ValueRedefinition, p + 1)
    else
      var ve :- ExtractValue(s, ke.1, Some('}'), depth - 1, o, rd);
      InlineAssignFits(t, ke.0, ve.0, depth);
      Ok((InlineAssign(t, ke.0, ve.0), ve.1))
  }

  /** Assigning a value that fits one level down keeps the inline table within its levels. */
  lemma {:induction false} InlineAssignFits(t: Tbl, key: seq<string>, v: Value, d: int)
    requires |key| > 0 && InlineFree(t, key)
    ensures TblFits(t, d) && FitsDepth(v, d - 1) ==> TblFits(InlineAssign(t, key, v), d)
    decreases |key|
  {
    if TblFits(t, d) && FitsDepth(v, d - 1) {
      var k := key[0];
      if |key| == 1 {
        PutFits(t, k, Leaf(v), d);
      } else {
        match Lookup(t.kids, k)
        case None =>
          InlineAssignFits(EmptyTable(Dotted), key[1..], v, d);
          PutFits(t, k, Sub(InlineAssign(EmptyTable(Dotted), key[1..], v)), d);
        case Some(Sub(c)) =>
          assert Entry(k, Sub(c)) in t.kids;
          assert NodeFits(Entry(k, Sub(c)).node, d);
          InlineAssignFits(c, key[1..], v, d);
          PutFits(t, k, Sub(InlineAssign(c, key[1..], v)), d);
      }
    }
  }

  /** The value lands at the end of its key, below the tables the key passes through. */
  lemma {:induction false} InlineAssignLands(t: Tbl, key: seq<string>, v: Value)
    requires |key| > 0 && InlineFree(t, key)
    ensures NodeAt(InlineAssign(t, key, v), key) == Some(Leaf(v))
    decreases |key|
  {
    if |key| > 1 {
      var r := InlineAssign(t, key, v);
      NodeAtCons(r, key);
      match Lookup(t.kids, key[0])
      case None => InlineAssignLands(EmptyTable(Dotted), key[1..], v);
      case Some(Sub(c)) => InlineAssignLands(c, key[1..], v);
    }
  }

  /** A key that has been assigned is no longer free: an inline table never redefines it. */
  lemma {:induction false} InlineAssignedNotFree(t: Tbl, key: seq<string>, v: Value)
    requires |key| > 0 && InlineFree(t, key)
    ensures !InlineFree(InlineAssign(t, key, v), key)
    decreases |key|
  {
    if |key| > 1 {
      match Lookup(t.kids, key[0])
      case None => InlineAssignedNotFree(EmptyTable(Dotted), key[1..], v);
      case Some(Sub(c)) => InlineAssignedNotFree(c, key[1..], v);
    }
  }
}
