/**
 * String literals (`parseString`): basic `"..."`, literal `'...'` and their
 * triple-quoted multi-line forms, given the offset of the opening quote and
 * the offset just past the closing delimiter.
 */
module StringLit {
  import opened Results
  import opened Text
  import opened Cursor

  /** The one-character escapes of a basic string and the character each stands for. */
  function EscapeValue(c: char): Option<char> {
    match c
    case 'b' => Some('\U{8}')
    case 't' => Some('\t')
    case 'n' => Some('\n')
    case 'f' => Some('\U{C}')
    case 'r' => Some('\r')
    case '"' => Some('"')
    case '\\' => Some('\\')
    case _ => None
  }

  /**
   * The character a `\u`/`\U` escape denotes: 4 to 8 hexadecimal digits
   * naming a Unicode scalar value.
   */
  function UnicodeScalar(code: string): (r: Option<char>)
    ensures r.Some? ==> 4 <= |code| <= 8 && forall j :: 0 <= j < |code| ==> IsHexDigit(code[j])
    ensures r.Some? ==> r.value as int == DigitsValue(code, 16)
    ensures (4 <= |code| <= 8 && forall j :: 0 <= j < |code| ==> IsHexDigit(code[j])) ==>
      (r.Some? <==> var v := DigitsValue(code, 16); v < 0xD800 || 0xE000 <= v <= 0x10FFFF)
  {
    if 4 <= |code| <= 8 && forall j :: 0 <= j < |code| ==> IsHexDigit(code[j]) then
      var v := DigitsValue(code, 16);
      if v < 0xD800 || 0xE000 <= v <= 0x10FFFF then Some(v as char) else None
    else None
  }

  /** What the opening quote says about the string. */
  datatype Quoting = Quoting(literal: bool, multiline: bool)

  /**
   * A line break that a string may contain when it is multi-line: `\n`, or
   * `\r` directly followed by `\n`.
   */
  predicate LineBreakAt(s: string, i: nat)
    requires i < |s|
  {
    s[i] == '\n' || (s[i] == '\r' && CharIs(s, i + 1, '\n'))
  }

  /**
   * The state of the loop of `parseString`: `ptr` is the next character;
   * `parsed` holds the decoded text before `sliceStart`, except while an
   * escape is pending (`esc`), when it already holds the text before the
   * backslash at `tmp`.
   */
  datatype Decoder = Decoder(ptr: nat, esc: bool, tmp: int, parsed: string, sliceStart: nat)

  /** The error kinds the string decoder reports. */
  predicate StringErrorKind(k: ErrorKind) {
    k in {NewlineInString, StringControlChar, InvalidUnicodeEscape, InvalidEscape, UnknownEscape, CommentControlChar}
  }

  /**
   * A character the string may hold as it stands: a line break only in a
   * multi-line string, and no other control character.
   */
  predicate Admissible(s: string, q: Quoting, j: nat)
    requires j < |s|
  {
    if LineBreakAt(s, j) then q.multiline else !IsControl(s[j])
  }

  /** The offset just past the digits of a `\u` (four) or `\U` (eight) escape. */
  function UnicodeEnd(s: string, ptr: nat): nat
    requires ptr < |s|
  {
    ptr + 1 + (if s[ptr] == 'u' then 4 else 8)
  }

  /**
   * One iteration of the loop of `parseString`. `banComments` selects how a
   * line-ending backslash skips the following white space: the JavaScript
   * parser lets that skip run over comments (`false`), the corrected
   * reading does not.
   */
  function Step(s: string, q: Quoting, d: Decoder, banComments: bool): (r: Result<Decoder>)
    requires d.ptr < |s|
    ensures r.Ok? ==>
      || (d.ptr < r.value.ptr && !r.value.esc)
      || (r.value.ptr == d.ptr + 1 && r.value.esc && !d.esc && r.value.tmp == d.ptr)
    ensures r.Err? ==> StringErrorKind(r.error.kind)
    ensures r.Err? && r.error.kind == NewlineInString ==> !q.multiline && LineBreakAt(s, d.ptr)
    ensures !q.multiline && LineBreakAt(s, d.ptr) ==> r == Fail(NewlineInString, d.ptr)
    ensures !LineBreakAt(s, d.ptr) && IsControl(s[d.ptr]) ==> r == Fail(StringControlChar, d.ptr)
    ensures r.Err? && r.error.kind == CommentControlChar ==> !banComments
    ensures d.esc && (s[d.ptr] == 'u' || s[d.ptr] == 'U') && UnicodeScalar(Slice(s, d.ptr + 1, UnicodeEnd(s, d.ptr))).None? ==>
      r == Fail(InvalidUnicodeEscape, d.tmp)
    ensures
      (&& d.esc && !IsControl(s[d.ptr]) && s[d.ptr] != 'u' && s[d.ptr] != 'U' && EscapeValue(s[d.ptr]).None?
       && !(q.multiline && (s[d.ptr] == ' ' || s[d.ptr] == '\t')))
      ==> r == Fail(UnknownEscape, d.tmp)
    // A line-ending backslash: the blanks after it must reach a line break,
    // and the white space from there on is skipped without adding anything.
    ensures d.esc && q.multiline && (s[d.ptr] == ' ' || s[d.ptr] == '\t' || LineBreakAt(s, d.ptr)) ==>
      var a := SkipVoid(s, d.ptr, true, banComments);
      && (a.Err? ==> r == Err(a.error))
      && (a.Ok? && !CharIs(s, a.value, '\n') && !CharIs(s, a.value, '\r') ==> r == Fail(InvalidEscape, d.tmp))
      && (r.Ok? ==>
           && a.Ok? && (CharIs(s, a.value, '\n') || CharIs(s, a.value, '\r'))
           && SkipVoid(s, a.value, false, banComments) == Ok(r.value.ptr)
           && r.value.parsed == d.parsed && r.value.sliceStart == r.value.ptr)
  {
    var ptr := d.ptr;
    var c := s[ptr];
    var nl := LineBreakAt(s, ptr);
    if nl && !q.multiline then Fail(NewlineInString, ptr)
    else if !nl && IsControl(c) then Fail(StringControlChar, ptr)
    else if d.esc then
      if c == 'u' || c == 'U' then
        var e := UnicodeEnd(s, ptr);
        match UnicodeScalar(Slice(s, ptr + 1, e))
        case None => Fail(InvalidUnicodeEscape, d.tmp)
        case Some(ch) => Ok(Decoder(e, false, d.tmp, d.parsed + [ch], e))
      else if q.multiline && (c == '\n' || c == ' ' || c == '\t' || c == '\r') then
        Continuation(s, d, banComments)
      else if EscapeValue(c).Some? then
        Ok(Decoder(ptr + 1, false, d.tmp, d.parsed + [EscapeValue(c).value], ptr + 1))
      else Fail(UnknownEscape, d.tmp)
    else if !q.literal && c == '\\' then
      Ok(Decoder(ptr + 1, true, ptr, d.parsed + Slice(s, d.sliceStart, ptr), d.sliceStart))
    else Ok(d.(ptr := ptr + 1))
  }

  /**
   * A line-ending backslash in a multi-line basic string, with `d.ptr` just
   * after it: the blanks that follow must reach a line break, and the white
   * space from there on is skipped without adding anything.
   */
  function Continuation(s: string, d: Decoder, banComments: bool): (r: Result<Decoder>)
    requires d.ptr < |s| && (s[d.ptr] == ' ' || s[d.ptr] == '\t' || LineBreakAt(s, d.ptr))
    ensures r.Ok? ==> d.ptr < r.value.ptr && !r.value.esc
    ensures r.Err? ==> r.error.kind in {InvalidEscape, CommentControlChar}
    ensures var a := SkipVoid(s, d.ptr, true, banComments);
      && (a.Err? ==> r == Err(a.error))
      && (a.Ok? && !CharIs(s, a.value, '\n') && !CharIs(s, a.value, '\r') ==> r == Fail(InvalidEscape, d.tmp))
      && (r.Ok? ==>
           && a.Ok? && (CharIs(s, a.value, '\n') || CharIs(s, a.value, '\r'))
           && SkipVoid(s, a.value, false, banComments) == Ok(r.value.ptr)
           && r.value.parsed == d.parsed && r.value.sliceStart == r.value.ptr)
  {
    var a :- SkipVoid(s, d.ptr, true, banComments);
    if !CharIs(s, a, '\n') && !CharIs(s, a, '\r') then Fail(InvalidEscape, d.tmp)
    else
      var b :- SkipVoid(s, a, false, banComments);
      assert d.ptr < b by {
        if a == d.ptr {
          assert IsBlankAt(s, a, false);
        }
      }
      Ok(Decoder(b, false, d.tmp, d.parsed, b))
  }

  /** The digits of a `\u`/`\U` escape that names a character are hexadecimal. */
  lemma UnicodeDigits(s: string, ptr: nat)
    requires ptr < |s| && UnicodeScalar(Slice(s, ptr + 1, UnicodeEnd(s, ptr))).Some?
    ensures forall j :: ptr < j < UnicodeEnd(s, ptr) && j < |s| ==> IsHexDigit(s[j])
  {
    var e := UnicodeEnd(s, ptr);
    var code := Slice(s, ptr + 1, e);
    forall j | ptr < j < e && j < |s|
      ensures IsHexDigit(s[j])
    {
      assert code == s[ptr + 1..if e <= |s| then e else |s|];
      assert s[j] == code[j - ptr - 1];
    }
  }

  /** The white space a line-ending backslash skips holds no stray control character. */
  lemma ContinuationClean(s: string, ptr: nat, banComments: bool)
    requires ptr < |s|
    ensures var a := SkipVoid(s, ptr, true, banComments);
      a.Ok? ==> var b := SkipVoid(s, a.value, false, banComments);
        b.Ok? ==> forall j :: ptr <= j < b.value ==> !IsControl(s[j]) || LineBreakAt(s, j)
  {
    SkipVoidClean(s, ptr, true, banComments);
    var a := SkipVoid(s, ptr, true, banComments);
    if a.Ok? {
      SkipVoidClean(s, a.value, false, banComments);
    }
  }

  /** Every character one iteration steps over may stand in the string. */
  lemma StepClean(s: string, q: Quoting, d: Decoder, banComments: bool)
    requires d.ptr < |s|
    ensures var r := Step(s, q, d, banComments);
      r.Ok? ==> forall j :: d.ptr <= j < r.value.ptr && j < |s| ==> Admissible(s, q, j)
  {
    var c := s[d.ptr];
    if d.esc && (c == 'u' || c == 'U') && UnicodeScalar(Slice(s, d.ptr + 1, UnicodeEnd(s, d.ptr))).Some? {
      UnicodeDigits(s, d.ptr);
    } else if d.esc && q.multiline {
      ContinuationClean(s, d.ptr, banComments);
    }
  }

  /** The loop of `parseString`: it runs while `ptr < endPtr - 1`. */
  function Loop(s: string, q: Quoting, d: Decoder, endPtr: int, banComments: bool): (r: Result<string>)
    requires endPtr <= |s|
    ensures r.Err? ==> StringErrorKind(r.error.kind)
    ensures r.Err? && r.error.kind == NewlineInString ==> !q.multiline
    ensures r.Err? && r.error.kind == CommentControlChar ==> !banComments
    ensures r.Ok? ==> forall j :: d.ptr <= j < endPtr - 1 ==> Admissible(s, q, j)
    decreases |s| - d.ptr
  {
    if d.ptr >= endPtr - 1 then Ok(d.parsed + Slice(s, d.sliceStart, endPtr - 1))
    else
      var d' :- Step(s, q, d, banComments);
      StepClean(s, q, d, banComments);
      Loop(s, q, d', endPtr, banComments)
  }

  /** Does a triple quote open at `ptr`? */
  function QuotingAt(s: string, ptr: nat): Quoting
    requires ptr < |s|
  {
    Quoting(s[ptr] == '\'', TripleQuoteAt(s, ptr))
  }

  /**
   * Where the body of the string opening at `ptr` starts: after a single
   * quote, or after a triple quote followed by an optional `\r` and then an
   * optional `\n`.
   */
  function BodyStart(s: string, ptr: nat): (r: nat)
    requires ptr < |s|
    ensures ptr < r <= |s|
    ensures !TripleQuoteAt(s, ptr) ==> r == ptr + 1
    ensures TripleQuoteAt(s, ptr) ==>
      && ptr + 3 <= r <= ptr + 5
      && (r == ptr + 3 <==> !CharIs(s, ptr + 3, '\r') && !CharIs(s, ptr + 3, '\n'))
      && (r == ptr + 5 <==> CharIs(s, ptr + 3, '\r') && CharIs(s, ptr + 4, '\n'))
      && (r == ptr + 4 ==> s[ptr + 3] == '\n' || (s[ptr + 3] == '\r' && !CharIs(s, ptr + 4, '\n')))
  {
    if TripleQuoteAt(s, ptr) then
      var p := ptr + 3;
      var p' := if CharIs(s, p, '\r') then p + 1 else p;
      if CharIs(s, p', '\n') then p' + 1 else p'
    else ptr + 1
  }

  /** Where the loop stops: before the closing quote, or before the closing triple quote. */
  function BodyEnd(s: string, ptr: nat, endPtr: int): int
    requires ptr < |s|
  {
    if TripleQuoteAt(s, ptr) then endPtr - 3 else endPtr - 1
  }

  /**
   * `parseString(str, ptr, endPtr)`, with `banComments` choosing how a
   * line-ending backslash skips white space. Every character of an accepted
   * body may stand in a string of its kind.
   */
  function ParseStringWith(s: string, ptr: nat, endPtr: int, banComments: bool): (r: Result<string>)
    requires ptr < |s| && endPtr <= |s|
    ensures r.Err? ==> StringErrorKind(r.error.kind)
    ensures r.Err? && r.error.kind == CommentControlChar ==> !banComments
    ensures r.Ok? ==> forall j :: BodyStart(s, ptr) <= j < BodyEnd(s, ptr, endPtr) ==> Admissible(s, QuotingAt(s, ptr), j)
  {
    var q := QuotingAt(s, ptr);
    var start := BodyStart(s, ptr);
    Loop(s, q, Decoder(start, false, 0, "", start), if q.multiline then endPtr - 2 else endPtr, banComments)
  }

  /**
   * `parseString(str, ptr, endPtr)`, with a line-ending backslash in a
   * multi-line basic string skipping white space and line breaks only.
   */
  function ParseString(s: string, ptr: nat, endPtr: int): (r: Result<string>)
    requires ptr < |s| && endPtr <= |s|
    ensures r.Err? ==> StringErrorKind(r.error.kind) && r.error.kind != CommentControlChar
    ensures r.Err? && r.error.kind == NewlineInString ==> !TripleQuoteAt(s, ptr)
    ensures r.Ok? ==> forall j :: BodyStart(s, ptr) <= j < BodyEnd(s, ptr, endPtr) ==> Admissible(s, QuotingAt(s, ptr), j)
  {
    ParseStringWith(s, ptr, endPtr, true)
  }

  /**
   * `parseString` as written: the skip after a line-ending backslash also
   * skips comments, so a following line that starts with `#` disappears.
   */
  function ParseStringAsWritten(s: string, ptr: nat, endPtr: int): (r: Result<string>)
    requires ptr < |s| && endPtr <= |s|
    ensures r.Err? ==> StringErrorKind(r.error.kind)
    ensures r.Err? && r.error.kind == NewlineInString ==> !TripleQuoteAt(s, ptr)
    ensures r.Ok? ==> forall j :: BodyStart(s, ptr) <= j < BodyEnd(s, ptr, endPtr) ==> Admissible(s, QuotingAt(s, ptr), j)
  {
    ParseStringWith(s, ptr, endPtr, false)
  }

  /** A raw line break or control character in the body of a single-line string is refused. */
  lemma SingleLineRaw(s: string, ptr: nat, endPtr: int, j: nat)
    requires ptr < |s| && endPtr <= |s| && !TripleQuoteAt(s, ptr)
    requires ptr < j < endPtr - 1 && (LineBreakAt(s, j) || IsControl(s[j]))
    ensures ParseString(s, ptr, endPtr).Err? && ParseStringAsWritten(s, ptr, endPtr).Err?
  {
    assert !Admissible(s, QuotingAt(s, ptr), j);
  }

  /*** Properties ***/

  /** Characters the loop steps over without decoding anything. */
  predicate PlainAt(s: string, q: Quoting, j: nat)
    requires j < |s|
  {
    (!q.literal ==> s[j] != '\\') && Admissible(s, q, j)
  }

  lemma StepPlain(s: string, q: Quoting, d: Decoder, banComments: bool)
    requires d.ptr < |s| && !d.esc && PlainAt(s, q, d.ptr)
    ensures Step(s, q, d, banComments) == Ok(d.(ptr := d.ptr + 1))
  {
  }

  lemma LoopStep(s: string, q: Quoting, d: Decoder, d': Decoder, endPtr: int, banComments: bool)
    requires endPtr <= |s| && d.ptr < endPtr - 1 && Step(s, q, d, banComments) == Ok(d')
    ensures Loop(s, q, d, endPtr, banComments) == Loop(s, q, d', endPtr, banComments)
  {
  }

  /**
   * A literal string has no escapes: it is accepted exactly when it holds
   * no control character and, unless multi-line, no line break, and its
   * value is the text between the delimiters.
   */
  lemma {:induction false} LoopLiteral(s: string, q: Quoting, d: Decoder, endPtr: int, banComments: bool)
    requires endPtr <= |s| && q.literal && !d.esc
    ensures var r := Loop(s, q, d, endPtr, banComments);
      && (r.Ok? <==> forall j :: d.ptr <= j < endPtr - 1 ==> PlainAt(s, q, j))
      && (r.Ok? ==> r.value == d.parsed + Slice(s, d.sliceStart, endPtr - 1))
    decreases |s| - d.ptr
  {
    if d.ptr < endPtr - 1 {
      if PlainAt(s, q, d.ptr) {
        StepPlain(s, q, d, banComments);
        LoopLiteral(s, q, d.(ptr := d.ptr + 1), endPtr, banComments);
      } else {
        assert Step(s, q, d, banComments).Err?;
      }
    }
  }

  /** A run of plain characters leaves the decoder's state as it was. */
  lemma {:induction false} LoopPlainRun(s: string, q: Quoting, d: Decoder, k: nat, endPtr: int, banComments: bool)
    requires endPtr <= |s| && !d.esc && d.ptr <= k <= endPtr - 1
    requires forall j :: d.ptr <= j < k ==> PlainAt(s, q, j)
    ensures Loop(s, q, d, endPtr, banComments) == Loop(s, q, d.(ptr := k), endPtr, banComments)
    decreases k - d.ptr
  {
    if d.ptr < k {
      StepPlain(s, q, d, banComments);
      LoopStep(s, q, d, d.(ptr := d.ptr + 1), endPtr, banComments);
      LoopPlainRun(s, q, d.(ptr := d.ptr + 1), k, endPtr, banComments);
    }
  }

  function HexChar(d: nat): (c: char)
    requires d < 16
    ensures IsHexDigit(c) && HexDigitValue(c) == d
  {
    "0123456789abcdef"[d]
  }

  lemma HexPairValue(n: nat)
    requires n < 128
    ensures var code := "00" + [HexChar(n / 16), HexChar(n % 16)];
      (forall j :: 0 <= j < |code| ==> IsHexDigit(code[j])) && DigitsValue(code, 16) == n
  {
    var code := "00" + [HexChar(n / 16), HexChar(n % 16)];
    assert code[..3][..2][..1][..0] == [];
    assert DigitsValue(code[..3][..2][..1], 16) == 0;
    assert DigitsValue(code[..3][..2], 16) == 0;
    assert DigitsValue(code[..3], 16) == n / 16;
    assert DigitsValue(code, 16) == (n / 16) * 16 + n % 16;
  }

  /**
   * How a serialiser writes one character inside a basic string: the
   * short escapes where they exist, `\u00XX` for the other control
   * characters, and the character itself otherwise.
   */
  function EscapeChar(c: char): (r: string)
    ensures |r| == 1 || |r| == 2 || |r| == 6
    ensures r[0] != '"'
    ensures |r| == 1 ==> r == [c] && !IsControl(c) && c != '\\'
    ensures |r| == 2 ==> r[0] == '\\' && EscapeValue(r[1]) == Some(c) && !IsControl(r[1]) && r[1] != 'u' && r[1] != 'U'
    ensures |r| == 6 ==> r[..2] == "\\u" && UnicodeScalar(r[2..]) == Some(c)
  {
    if c == '"' then "\\\""
    else if c == '\\' then "\\\\"
    else if c == '\U{8}' then "\\b"
    else if c == '\n' then "\\n"
    else if c == '\U{C}' then "\\f"
    else if c == '\r' then "\\r"
    else if IsControl(c) then
      var n := c as int;
      var code := "00" + [HexChar(n / 16), HexChar(n % 16)];
      assert UnicodeScalar(code) == Some(c) by {
        HexPairValue(n);
      }
      assert ("\\u" + code)[2..] == code;
      "\\u" + code
    else [c]
  }

  function Escape(c: string): (r: string)
    ensures |c| > 0 ==> |r| > 0 && r[0] != '"'
  {
    if c == [] then [] else EscapeChar(c[0]) + Escape(c[1..])
  }

  /** `c` written as a single-line basic string. */
  function Quote(c: string): string {
    "\"" + Escape(c) + "\""
  }

  /** A slice that is a concatenation splits into the two parts. */
  lemma SliceSplit(s: string, ptr: nat, e: nat, t: string, rest: string)
    requires ptr <= e <= |s| && s[ptr..e] == t + rest
    ensures s[ptr..ptr + |t|] == t && s[ptr + |t|..e] == rest
  {
    assert s[ptr..e][..|t|] == t;
    assert s[ptr..e][|t|..] == rest;
  }

  /** The decoded text when the serialised text of the rest starts at `k`. */
  ghost predicate DecodesFrom(s: string, k: nat, endPtr: int, rest: string, banComments: bool)
    requires k <= |s| && endPtr <= |s|
  {
    forall d: Decoder :: d.ptr == k && !d.esc && d.sliceStart <= k ==>
      Loop(s, Quoting(false, false), d, endPtr, banComments) == Ok(d.parsed + s[d.sliceStart..k] + rest)
  }

  lemma LoopEscapedPlain(s: string, ch: char, rest: string, d: Decoder, k: nat, endPtr: int, banComments: bool)
    requires endPtr <= |s| && !d.esc && d.sliceStart <= d.ptr
    requires |EscapeChar(ch)| == 1 && k == d.ptr + 1 <= endPtr - 1 && s[d.ptr..k] == EscapeChar(ch)
    requires DecodesFrom(s, k, endPtr, rest, banComments)
    ensures Loop(s, Quoting(false, false), d, endPtr, banComments) == Ok(d.parsed + s[d.sliceStart..d.ptr] + ([ch] + rest))
  {
    var q := Quoting(false, false);
    assert s[d.ptr] == s[d.ptr..k][0] == ch;
    StepPlain(s, q, d, banComments);
    LoopStep(s, q, d, d.(ptr := k), endPtr, banComments);
    assert Loop(s, q, d.(ptr := k), endPtr, banComments) == Ok(d.parsed + s[d.sliceStart..k] + rest);
    assert s[d.sliceStart..k] == s[d.sliceStart..d.ptr] + [ch];
    assert d.parsed + s[d.sliceStart..k] + rest == d.parsed + s[d.sliceStart..d.ptr] + ([ch] + rest);
  }

  /** A backslash outside a literal string opens an escape, flushing the text before it. */
  lemma StepBackslash(s: string, q: Quoting, d: Decoder, banComments: bool)
    requires d.ptr < |s| && !d.esc && !q.literal && s[d.ptr] == '\\' && d.sliceStart <= d.ptr
    ensures Step(s, q, d, banComments) == Ok(Decoder(d.ptr + 1, true, d.ptr, d.parsed + s[d.sliceStart..d.ptr], d.sliceStart))
  {
    assert Slice(s, d.sliceStart, d.ptr) == s[d.sliceStart..d.ptr];
  }

  /** A short escape appends the character it stands for. */
  lemma StepShortEscape(s: string, q: Quoting, d: Decoder, ch: char, banComments: bool)
    requires d.ptr < |s| && d.esc && !IsControl(s[d.ptr]) && s[d.ptr] != 'u' && s[d.ptr] != 'U'
    requires EscapeValue(s[d.ptr]) == Some(ch)
    ensures Step(s, q, d, banComments) == Ok(Decoder(d.ptr + 1, false, d.tmp, d.parsed + [ch], d.ptr + 1))
  {
    assert !LineBreakAt(s, d.ptr);
  }

  /**
   * A `\u` escape with four hex digits, or a `\U` escape with eight, appends
   * the character they name and resumes after the digits.
   */
  lemma StepUnicodeEscape(s: string, q: Quoting, d: Decoder, ch: char, banComments: bool)
    requires d.ptr < |s| && d.esc && (s[d.ptr] == 'u' || s[d.ptr] == 'U')
    requires UnicodeScalar(Slice(s, d.ptr + 1, UnicodeEnd(s, d.ptr))) == Some(ch)
    ensures var e := d.ptr + (if s[d.ptr] == 'u' then 5 else 9);
      Step(s, q, d, banComments) == Ok(Decoder(e, false, d.tmp, d.parsed + [ch], e))
  {
    assert !LineBreakAt(s, d.ptr);
  }

  lemma LoopEscapedShort(s: string, ch: char, rest: string, d: Decoder, k: nat, endPtr: int, banComments: bool)
    requires endPtr <= |s| && !d.esc && d.sliceStart <= d.ptr
    requires |EscapeChar(ch)| == 2 && k == d.ptr + 2 <= endPtr - 1 && s[d.ptr..k] == EscapeChar(ch)
    requires DecodesFrom(s, k, endPtr, rest, banComments)
    ensures Loop(s, Quoting(false, false), d, endPtr, banComments) == Ok(d.parsed + s[d.sliceStart..d.ptr] + ([ch] + rest))
  {
    var q := Quoting(false, false);
    var t := EscapeChar(ch);
    assert s[d.ptr] == s[d.ptr..k][0] == '\\' && s[d.ptr + 1] == s[d.ptr..k][1] == t[1];
    var d1 := Decoder(d.ptr + 1, true, d.ptr, d.parsed + s[d.sliceStart..d.ptr], d.sliceStart);
    var d2 := Decoder(k, false, d.ptr, d1.parsed + [ch], k);
    StepBackslash(s, q, d, banComments);
    StepShortEscape(s, q, d1, ch, banComments);
    LoopStep(s, q, d, d1, endPtr, banComments);
    LoopStep(s, q, d1, d2, endPtr, banComments);
    assert d2.parsed + s[k..k] + rest == d.parsed + s[d.sliceStart..d.ptr] + ([ch] + rest);
  }

  /** The two steps over a serialised `\u00XX`: the backslash, then the escape. */
  lemma EscapedUnicodeSteps(s: string, q: Quoting, ch: char, d: Decoder, k: nat, banComments: bool)
    requires !d.esc && !q.literal && d.sliceStart <= d.ptr
    requires |EscapeChar(ch)| == 6 && k == d.ptr + 6 <= |s| && s[d.ptr..k] == EscapeChar(ch)
    ensures var d1 := Decoder(d.ptr + 1, true, d.ptr, d.parsed + s[d.sliceStart..d.ptr], d.sliceStart);
      && Step(s, q, d, banComments) == Ok(d1)
      && Step(s, q, d1, banComments) == Ok(Decoder(k, false, d.ptr, d1.parsed + [ch], k))
  {
    var t := EscapeChar(ch);
    assert s[d.ptr + 2..k] == t[2..] by {
      assert s[d.ptr + 2..k] == s[d.ptr..k][2..];
    }
    assert s[d.ptr] == t[..2][0] && s[d.ptr + 1] == t[..2][1] by {
      assert s[d.ptr] == s[d.ptr..k][0] && s[d.ptr + 1] == s[d.ptr..k][1];
    }
    var d1 := Decoder(d.ptr + 1, true, d.ptr, d.parsed + s[d.sliceStart..d.ptr], d.sliceStart);
    StepBackslash(s, q, d, banComments);
    assert UnicodeScalar(t[2..]) == Some(ch);
    assert Slice(s, d1.ptr + 1, UnicodeEnd(s, d1.ptr)) == s[d.ptr + 2..k];
    StepUnicodeEscape(s, q, d1, ch, banComments);
  }

  lemma LoopEscapedUnicode(s: string, ch: char, rest: string, d: Decoder, k: nat, endPtr: int, banComments: bool)
    requires endPtr <= |s| && !d.esc && d.sliceStart <= d.ptr
    requires |EscapeChar(ch)| == 6 && k == d.ptr + 6 <= endPtr - 1 && s[d.ptr..k] == EscapeChar(ch)
    requires DecodesFrom(s, k, endPtr, rest, banComments)
    ensures Loop(s, Quoting(false, false), d, endPtr, banComments) == Ok(d.parsed + s[d.sliceStart..d.ptr] + ([ch] + rest))
  {
    hide Step, Loop, EscapeChar, DecodesFrom;
    var q := Quoting(false, false);
    var d1 := Decoder(d.ptr + 1, true, d.ptr, d.parsed + s[d.sliceStart..d.ptr], d.sliceStart);
    var d2 := Decoder(k, false, d.ptr, d1.parsed + [ch], k);
    EscapedUnicodeSteps(s, q, ch, d, k, banComments);
    LoopStep(s, q, d, d1, endPtr, banComments);
    LoopStep(s, q, d1, d2, endPtr, banComments);
    DecodesFromHere(s, k, endPtr, rest, banComments, d2);
    assert d2.parsed + rest == d.parsed + s[d.sliceStart..d.ptr] + ([ch] + rest);
  }

  /** A decoder that has just consumed everything up to `k` reads on to `rest`. */
  lemma DecodesFromHere(s: string, k: nat, endPtr: int, rest: string, banComments: bool, d: Decoder)
    requires k <= |s| && endPtr <= |s| && DecodesFrom(s, k, endPtr, rest, banComments)
    requires d.ptr == k && !d.esc && d.sliceStart == k
    ensures Loop(s, Quoting(false, false), d, endPtr, banComments) == Ok(d.parsed + rest)
  {
    hide Step, Loop;
    assert s[k..k] == [];
    assert d.parsed + s[k..k] + rest == d.parsed + rest;
  }

  /** The serialised text of one character, ahead of the text of `rest`, decodes to both. */
  lemma LoopEscapedHead(s: string, ch: char, rest: string, ptr: nat, k: nat, endPtr: int, banComments: bool)
    requires endPtr <= |s| && k == ptr + |EscapeChar(ch)| <= endPtr - 1 && s[ptr..k] == EscapeChar(ch)
    requires DecodesFrom(s, k, endPtr, rest, banComments)
    ensures DecodesFrom(s, ptr, endPtr, [ch] + rest, banComments)
  {
    hide Step, Loop;
    forall d: Decoder | d.ptr == ptr && !d.esc && d.sliceStart <= ptr
      ensures Loop(s, Quoting(false, false), d, endPtr, banComments) == Ok(d.parsed + s[d.sliceStart..ptr] + ([ch] + rest))
    {
      var t := EscapeChar(ch);
      if |t| == 1 {
        LoopEscapedPlain(s, ch, rest, d, k, endPtr, banComments);
      } else if |t| == 2 {
        LoopEscapedShort(s, ch, rest, d, k, endPtr, banComments);
      } else {
        LoopEscapedUnicode(s, ch, rest, d, k, endPtr, banComments);
      }
    }
  }

  /** Decoding the serialised text of `c` yields `c`. */
  lemma {:induction false} LoopEscaped(s: string, c: string, ptr: nat, endPtr: int, banComments: bool)
    requires endPtr <= |s| && ptr + |Escape(c)| == endPtr - 1
    requires s[ptr..endPtr - 1] == Escape(c)
    ensures DecodesFrom(s, ptr, endPtr, c, banComments)
    decreases |c|
  {
    if c != [] {
      var t := EscapeChar(c[0]);
      var k := ptr + |t|;
      assert Escape(c) == t + Escape(c[1..]);
      SliceSplit(s, ptr, endPtr - 1, t, Escape(c[1..]));
      LoopEscaped(s, c[1..], k, endPtr, banComments);
      LoopEscapedHead(s, c[0], c[1..], ptr, k, endPtr, banComments);
      assert [c[0]] + c[1..] == c;
    } else {
      LoopEscapedEnd(s, ptr, endPtr, banComments);
    }
  }

  /** At the end of the body nothing is left to decode. */
  lemma LoopEscapedEnd(s: string, ptr: nat, endPtr: int, banComments: bool)
    requires ptr <= |s| && endPtr <= |s| && ptr == endPtr - 1
    ensures DecodesFrom(s, ptr, endPtr, [], banComments)
  {
    forall d: Decoder | d.ptr == ptr && !d.esc && d.sliceStart <= ptr
      ensures Loop(s, Quoting(false, false), d, endPtr, banComments) == Ok(d.parsed + s[d.sliceStart..ptr] + [])
    {
      LoopDone(s, Quoting(false, false), d, endPtr, banComments);
      assert d.parsed + s[d.sliceStart..ptr] + [] == d.parsed + s[d.sliceStart..ptr];
    }
  }

  /** Any text, serialised as a basic string, parses back to itself. */
  lemma QuoteRoundTrip(c: string)
    ensures ParseString(Quote(c), 0, |Quote(c)|) == Ok(c)
  {
    var s := Quote(c);
    var d := Decoder(1, false, 0, "", 1);
    assert s[1..|s| - 1] == Escape(c);
    assert c != [] ==> s[1] == Escape(c)[0];
    assert QuotingAt(s, 0) == Quoting(false, false);
    assert BodyStart(s, 0) == 1;
    LoopEscaped(s, c, 1, |s|, true);
    assert Loop(s, Quoting(false, false), d, |s|, true) == Ok("" + s[1..1] + c);
    assert "" + s[1..1] + c == c;
  }

  /** Outside multi-line strings, comments never come into play. */
  lemma {:induction false} LoopSingleLine(s: string, q: Quoting, d: Decoder, endPtr: int)
    requires endPtr <= |s| && !q.multiline
    ensures Loop(s, q, d, endPtr, true) == Loop(s, q, d, endPtr, false)
    decreases |s| - d.ptr
  {
    if d.ptr < endPtr - 1 {
      assert Step(s, q, d, true) == Step(s, q, d, false);
      if Step(s, q, d, true).Ok? {
        LoopSingleLine(s, q, Step(s, q, d, true).value, endPtr);
      }
    }
  }

  /** A single-line string (as in a key) reads the same either way. */
  lemma SingleLineSame(s: string, ptr: nat, endPtr: int)
    requires ptr < |s| && endPtr <= |s| && !TripleQuoteAt(s, ptr)
    ensures ParseString(s, ptr, endPtr) == ParseStringAsWritten(s, ptr, endPtr)
  {
    var q := QuotingAt(s, ptr);
    var start := BodyStart(s, ptr);
    LoopSingleLine(s, q, Decoder(start, false, 0, "", start), endPtr);
  }

  /*** A line-ending backslash followed by a comment line ***/

  /** A multi-line basic string whose continuation line starts with `#`. */
  const HashLine: string := "\"\"\"a\\\n#b\n\"\"\""

  /** The characters of `HashLine`, one by one. */
  predicate HashLineShape(s: string) {
    && |s| == 12
    && s[0] == '"' && s[1] == '"' && s[2] == '"' && s[3] == 'a' && s[4] == '\\' && s[5] == '\n'
    && s[6] == '#' && s[7] == 'b' && s[8] == '\n' && s[9] == '"' && s[10] == '"' && s[11] == '"'
  }

  lemma HashLineChars()
    ensures HashLineShape(HashLine)
  {
  }

  /** The closing delimiter is found at the end of the document. */
  lemma HashLineEnd(s: string)
    requires HashLineShape(s)
    ensures GetStringEnd(s, 0) == |s|
  {
    var t := "\"\"\"";
    assert TripleQuoteAt(s, 0);
    assert s[0..3] == t;
    assert s[9..12] == t;
    assert OccursAt(s, t, 9);
    assert IndexOfSeq(s, t, 9) == 9;
    assert IndexOfSeq(s, t, 8) == 9 by { assert s[8] != t[0]; assert s[8..11] != t; }
    assert IndexOfSeq(s, t, 7) == 9 by { assert s[7] != t[0]; assert s[7..10] != t; }
    assert IndexOfSeq(s, t, 6) == 9 by { assert s[6] != t[0]; assert s[6..9] != t; }
    assert IndexOfSeq(s, t, 5) == 9 by { assert s[5] != t[0]; assert s[5..8] != t; }
    assert IndexOfSeq(s, t, 4) == 9 by { assert s[4] != t[0]; assert s[4..7] != t; }
    assert IndexOfSeq(s, t, 3) == 9 by { assert s[3] != t[0]; assert s[3..6] != t; }
    assert BackslashRun(s, 9) == 0;
    assert !IsEscaped(s, 9);
    assert FindClosing(s, t, '"', 3) == 9;
  }

  /** The decoder state right after the line-ending backslash of `HashLine`. */
  lemma HashLineEscape(s: string, banComments: bool)
    requires HashLineShape(s)
    ensures var q := Quoting(false, true);
      Loop(s, q, Decoder(3, false, 0, "", 3), 10, banComments)
        == Loop(s, q, Decoder(5, true, 4, "a", 3), 10, banComments)
  {
    var q := Quoting(false, true);
    var d0 := Decoder(3, false, 0, "", 3);
    var d1 := d0.(ptr := 4);
    assert PlainAt(s, q, 3);
    StepPlain(s, q, d0, banComments);
    LoopStep(s, q, d0, d1, 10, banComments);
    assert Slice(s, 3, 4) == "a";
    assert "" + Slice(s, 3, 4) == "a";
    assert !LineBreakAt(s, 4) && !IsControl(s[4]);
    assert Step(s, q, d1, banComments) == Ok(Decoder(5, true, 4, "a", 3));
    LoopStep(s, q, d1, Decoder(5, true, 4, "a", 3), 10, banComments);
  }

  /** As written, the skip after the backslash runs over the comment line. */
  lemma HashLineAsWritten(s: string)
    requires HashLineShape(s)
    ensures ParseStringAsWritten(s, 0, 12) == Ok("a")
  {
    var q := Quoting(false, true);
    assert QuotingAt(s, 0) == q;
    assert BodyStart(s, 0) == 3;
    HashLineEscape(s, false);
    assert SkipVoid(s, 5, true, false) == Ok(5);
    assert ScanComment(s, 6, 8) == Ok(8);
    assert ScanComment(s, 6, 7) == Ok(8);
    assert SkipComment(s, 6) == Ok(8);
    assert SkipBlanks(s, 9, false) == 9;
    assert SkipBlanks(s, 8, false) == 9;
    assert SkipVoid(s, 8, false, false) == Ok(9);
    assert SkipBlanks(s, 6, false) == 6;
    assert SkipBlanks(s, 5, false) == 6;
    assert SkipVoid(s, 5, false, false) == Ok(9);
    var d := Decoder(5, true, 4, "a", 3);
    assert Step(s, q, d, false) == Ok(Decoder(9, false, 4, "a", 9));
    LoopStep(s, q, d, Decoder(9, false, 4, "a", 9), 10, false);
    assert "a" + Slice(s, 9, 9) == "a";
  }

  /** With comments not skipped, the `#` line is part of the string. */
  lemma HashLineCorrected(s: string)
    requires HashLineShape(s)
    ensures ParseString(s, 0, 12) == Ok("a#b\n")
  {
    var q := Quoting(false, true);
    assert QuotingAt(s, 0) == q;
    assert BodyStart(s, 0) == 3;
    HashLineEscape(s, true);
    assert SkipVoid(s, 5, true, true) == Ok(5);
    assert SkipBlanks(s, 6, false) == 6;
    assert SkipBlanks(s, 5, false) == 6;
    assert SkipVoid(s, 5, false, true) == Ok(6);
    var d := Decoder(5, true, 4, "a", 3);
    var d' := Decoder(6, false, 4, "a", 6);
    assert Step(s, q, d, true) == Ok(d');
    LoopStep(s, q, d, d', 10, true);
    assert PlainAt(s, q, 6) && PlainAt(s, q, 7) && PlainAt(s, q, 8);
    LoopPlainRun(s, q, d', 9, 10, true);
    assert s[6..9] == "#b\n";
    assert "a" + Slice(s, 6, 9) == "a#b\n";
  }

  /**
   * In the document `x = """a\<newline>#b<newline>"""` the string ends at the
   * closing triple quote; as written its value loses the line `#b`.
   */
  lemma ContinuationSwallowsHashLine()
    ensures GetStringEnd(HashLine, 0) == |HashLine|
    ensures ParseStringAsWritten(HashLine, 0, |HashLine|) == Ok("a")
    ensures ParseString(HashLine, 0, |HashLine|) == Ok("a#b\n")
  {
    HashLineChars();
    HashLineEnd(HashLine);
    HashLineAsWritten(HashLine);
    HashLineCorrected(HashLine);
  }

  /*** Line continuations ***/

  /** Spaces and tabs only. */
  predicate Blanks(w: string) {
    forall j :: 0 <= j < |w| ==> w[j] == ' ' || w[j] == '\t'
  }

  /** Text the decoder copies as it stands: no backslash and no control character. */
  predicate PlainText(t: string) {
    forall j :: 0 <= j < |t| ==> t[j] != '\\' && !IsControl(t[j])
  }

  /** `skipVoid`'s blank loop stops at the first offset that is no blank. */
  lemma SkipBlanksTo(s: string, p: nat, k: nat, banNewLines: bool)
    requires p <= k && forall j :: p <= j < k ==> IsBlankAt(s, j, banNewLines)
    requires !IsBlankAt(s, k, banNewLines)
    ensures SkipBlanks(s, p, banNewLines) == k
  {
  }

  /**
   * The escape after a backslash at `i`: blanks up to the line break at `n`,
   * then white space up to `m`, where a character other than a blank follows.
   */
  lemma ContinuationStep(s: string, q: Quoting, d: Decoder, n: nat, m: nat, banComments: bool)
    requires q.multiline && d.esc && d.ptr <= n < m < |s|
    requires forall j :: d.ptr <= j < n ==> s[j] == ' ' || s[j] == '\t'
    requires CharIs(s, n, '\n') || (CharIs(s, n, '\r') && CharIs(s, n + 1, '\n') && n + 1 < m)
    requires forall j :: n < j < m ==> s[j] == ' ' || s[j] == '\t' || (j == n + 1 && s[j] == '\n')
    requires !IsBlankAt(s, m, false) && (!banComments ==> s[m] != '#')
    ensures Step(s, q, d, banComments) == Ok(Decoder(m, false, d.tmp, d.parsed, m))
  {
    SkipBlanksTo(s, d.ptr, n, true);
    assert SkipVoid(s, d.ptr, true, banComments) == Ok(n);
    forall j | n <= j < m
      ensures IsBlankAt(s, j, false)
    {
    }
    SkipBlanksTo(s, n, m, false);
    assert SkipVoid(s, n, false, banComments) == Ok(m);
    assert s[d.ptr] == ' ' || s[d.ptr] == '\t' || LineBreakAt(s, d.ptr);
  }

  /** Plain text written at `k` is stepped over without decoding anything. */
  lemma PlainTextAt(s: string, q: Quoting, t: string, k: nat)
    requires k + |t| <= |s| && s[k..k + |t|] == t && PlainText(t)
    ensures forall j :: k <= j < k + |t| ==> PlainAt(s, q, j)
  {
    forall j | k <= j < k + |t|
      ensures PlainAt(s, q, j)
    {
      assert s[j] == t[j - k];
    }
  }

  /** At the end of the body the loop hands back what it has decoded. */
  lemma LoopDone(s: string, q: Quoting, d: Decoder, endPtr: int, banComments: bool)
    requires endPtr <= |s| && endPtr - 1 <= d.ptr
    ensures Loop(s, q, d, endPtr, banComments) == Ok(d.parsed + Slice(s, d.sliceStart, endPtr - 1))
  {
  }

  /** The plain text `a` and a backslash open a multi-line body. */
  lemma ContinuationPrefix(s: string, a: string, i: nat, banComments: bool)
    requires 3 + |a| == i && i + 1 < |s| - 3 && s[3..i] == a && s[i] == '\\' && PlainText(a)
    ensures var q := Quoting(false, true);
      Loop(s, q, Decoder(3, false, 0, "", 3), |s| - 2, banComments)
        == Loop(s, q, Decoder(i + 1, true, i, a, 3), |s| - 2, banComments)
  {
    hide Step, Loop;
    var q := Quoting(false, true);
    var d0 := Decoder(3, false, 0, "", 3);
    PlainTextAt(s, q, a, 3);
    LoopPlainRun(s, q, d0, i, |s| - 2, banComments);
    StepBackslash(s, q, d0.(ptr := i), banComments);
    assert "" + s[3..i] == a;
    LoopStep(s, q, d0.(ptr := i), Decoder(i + 1, true, i, a, 3), |s| - 2, banComments);
  }

  /** Plain text `b` at `m` closes a multi-line body, appended to what was decoded. */
  lemma ContinuationSuffix(s: string, a: string, m: nat, b: string, tmp: int, banComments: bool)
    requires m + |b| + 3 == |s| && s[m..m + |b|] == b && PlainText(b)
    ensures Loop(s, Quoting(false, true), Decoder(m, false, tmp, a, m), |s| - 2, banComments) == Ok(a + b)
  {
    hide Step, Loop;
    var q := Quoting(false, true);
    var d := Decoder(m, false, tmp, a, m);
    PlainTextAt(s, q, b, m);
    LoopPlainRun(s, q, d, m + |b|, |s| - 2, banComments);
    LoopDone(s, q, d.(ptr := m + |b|), |s| - 2, banComments);
    assert Slice(s, m, m + |b|) == b;
  }

  /**
   * The decoder over a multi-line basic string whose body is `a`, a
   * backslash, blanks, the line break at `n`, white space and, from `m`, `b`.
   */
  lemma ContinuationLoop(s: string, a: string, i: nat, n: nat, m: nat, b: string, banComments: bool)
    requires 3 + |a| == i && i < n < m && m + |b| + 3 == |s|
    requires s[3..i] == a && s[i] == '\\' && s[m..m + |b|] == b
    requires PlainText(a) && PlainText(b) && !IsBlankAt(s, m, false) && (!banComments ==> s[m] != '#')
    requires forall j :: i < j < n ==> s[j] == ' ' || s[j] == '\t'
    requires CharIs(s, n, '\n') || (CharIs(s, n, '\r') && CharIs(s, n + 1, '\n') && n + 1 < m)
    requires forall j :: n < j < m ==> s[j] == ' ' || s[j] == '\t' || (j == n + 1 && s[j] == '\n')
    ensures Loop(s, Quoting(false, true), Decoder(3, false, 0, "", 3), |s| - 2, banComments) == Ok(a + b)
  {
    hide Step, Loop;
    var q := Quoting(false, true);
    var d1 := Decoder(i + 1, true, i, a, 3);
    var d2 := Decoder(m, false, i, a, m);
    ContinuationPrefix(s, a, i, banComments);
    ContinuationStep(s, q, d1, n, m, banComments);
    LoopStep(s, q, d1, d2, |s| - 2, banComments);
    ContinuationSuffix(s, a, m, b, i, banComments);
  }

  /**
   * A backslash, blanks, a line break and further blanks join the text
   * before them to the text after them, in a multi-line basic string.
   * As written a following `#` would start a comment, so there `b` must
   * not start with one.
   */
  lemma ContinuationJoins(a: string, w1: string, nl: string, w2: string, b: string)
    requires PlainText(a) && PlainText(b) && Blanks(w1) && Blanks(w2) && (nl == "\n" || nl == "\r\n")
    requires b == [] || (b[0] != ' ' && b[0] != '\t')
    ensures var s := "\"\"\"" + a + "\\" + w1 + nl + w2 + b + "\"\"\"";
      && ParseString(s, 0, |s|) == Ok(a + b)
      && (b == [] || b[0] != '#' ==> ParseStringAsWritten(s, 0, |s|) == Ok(a + b))
  {
    var g := w1 + nl + w2;
    GapShape(w1, nl, w2);
    assert "\"\"\"" + a + "\\" + w1 + nl + w2 + b + "\"\"\"" == "\"\"\"" + a + "\\" + g + b + "\"\"\"";
    ContinuationGapJoins(a, g, |w1|, b);
  }

  /**
   * The white space after a line-ending backslash: blanks, a line break at
   * `n`, blanks.
   */
  predicate ContinuationGap(g: string, n: nat) {
    && n < |g|
    && (forall j :: 0 <= j < n ==> g[j] == ' ' || g[j] == '\t')
    && (g[n] == '\n' || (g[n] == '\r' && n + 1 < |g| && g[n + 1] == '\n'))
    && (forall j :: n < j < |g| ==> g[j] == ' ' || g[j] == '\t' || (j == n + 1 && g[j] == '\n'))
  }

  /** Blanks, a line break and blanks make such white space. */
  lemma GapShape(w1: string, nl: string, w2: string)
    requires Blanks(w1) && Blanks(w2) && (nl == "\n" || nl == "\r\n")
    ensures ContinuationGap(w1 + nl + w2, |w1|)
  {
    var g := w1 + nl + w2;
    assert forall j :: 0 <= j < |w1| ==> g[j] == w1[j];
    assert forall j :: |w1| <= j < |w1| + |nl| ==> g[j] == nl[j - |w1|];
    assert forall j :: |w1| + |nl| <= j < |g| ==> g[j] == w2[j - |w1| - |nl|];
  }

  /** The same with the white space taken as one piece. */
  lemma ContinuationGapJoins(a: string, g: string, n: nat, b: string)
    requires PlainText(a) && PlainText(b) && ContinuationGap(g, n)
    requires b == [] || (b[0] != ' ' && b[0] != '\t')
    ensures var s := "\"\"\"" + a + "\\" + g + b + "\"\"\"";
      && ParseString(s, 0, |s|) == Ok(a + b)
      && (b == [] || b[0] != '#' ==> ParseStringAsWritten(s, 0, |s|) == Ok(a + b))
  {
    hide Loop, Step;
    var s := "\"\"\"" + a + "\\" + g + b + "\"\"\"";
    var i := 3 + |a|;
    var m := i + 1 + |g|;
    var e := m + |b|;
    assert s[3..i] == a;
    assert s[i] == '\\';
    assert s[m..e] == b;
    assert forall j :: i < j < m ==> s[j] == g[j - i - 1];
    assert s[m] == '"' || s[m] == b[0];
    assert QuotingAt(s, 0) == Quoting(false, true);
    assert BodyStart(s, 0) == 3 by {
      assert s[3] == '\\' || s[3] == a[0];
    }
    ContinuationLoop(s, a, i, i + 1 + n, m, b, true);
    if b == [] || b[0] != '#' {
      ContinuationLoop(s, a, i, i + 1 + n, m, b, false);
    }
  }

  /*** A comment after a line-ending backslash ***/

  /** A multi-line basic string whose backslash is followed by a blank and `#x`. */
  const HashAfterBackslash: string := "\"\"\"a\\ #x\nb\"\"\""

  /** The characters of `HashAfterBackslash`, one by one. */
  predicate HashAfterBackslashShape(s: string) {
    && |s| == 13
    && s[0] == '"' && s[1] == '"' && s[2] == '"' && s[3] == 'a' && s[4] == '\\' && s[5] == ' '
    && s[6] == '#' && s[7] == 'x' && s[8] == '\n' && s[9] == 'b' && s[10] == '"' && s[11] == '"' && s[12] == '"'
  }

  /** As written, the first skip after the backslash runs over `#x` and the string reads `ab`. */
  lemma HashAfterBackslashAsWritten(s: string)
    requires HashAfterBackslashShape(s)
    ensures ParseStringAsWritten(s, 0, 13) == Ok("ab")
  {
    var q := Quoting(false, true);
    assert QuotingAt(s, 0) == q;
    assert BodyStart(s, 0) == 3;
    var d0 := Decoder(3, false, 0, "", 3);
    assert PlainAt(s, q, 3);
    LoopPlainRun(s, q, d0, 4, 11, false);
    StepBackslash(s, q, d0.(ptr := 4), false);
    var d1 := Decoder(5, true, 4, "a", 3);
    assert "" + s[3..4] == "a";
    LoopStep(s, q, d0.(ptr := 4), d1, 11, false);
    assert SkipBlanks(s, 6, true) == 6;
    assert SkipBlanks(s, 5, true) == 6;
    assert ScanComment(s, 6, 8) == Ok(8);
    assert ScanComment(s, 6, 7) == Ok(8);
    assert SkipComment(s, 6) == Ok(8);
    assert SkipBlanks(s, 8, true) == 8;
    assert SkipVoid(s, 8, true, false) == Ok(8);
    assert SkipVoid(s, 5, true, false) == Ok(8);
    assert SkipBlanks(s, 9, false) == 9;
    assert SkipBlanks(s, 8, false) == 9;
    assert SkipVoid(s, 8, false, false) == Ok(9);
    var d2 := Decoder(9, false, 4, "a", 9);
    assert Step(s, q, d1, false) == Ok(d2);
    LoopStep(s, q, d1, d2, 11, false);
    assert PlainAt(s, q, 9);
    LoopPlainRun(s, q, d2, 10, 11, false);
    assert "a" + Slice(s, 9, 10) == "ab";
  }

  /** With comments not skipped, `#x` is no line-ending white space and the escape is refused. */
  lemma HashAfterBackslashCorrected(s: string)
    requires HashAfterBackslashShape(s)
    ensures ParseString(s, 0, 13) == Fail(InvalidEscape, 4)
  {
    var q := Quoting(false, true);
    assert QuotingAt(s, 0) == q;
    assert BodyStart(s, 0) == 3;
    var d0 := Decoder(3, false, 0, "", 3);
    assert PlainAt(s, q, 3);
    LoopPlainRun(s, q, d0, 4, 11, true);
    StepBackslash(s, q, d0.(ptr := 4), true);
    var d1 := Decoder(5, true, 4, "a", 3);
    assert "" + s[3..4] == "a";
    LoopStep(s, q, d0.(ptr := 4), d1, 11, true);
    assert SkipBlanks(s, 6, true) == 6;
    assert SkipBlanks(s, 5, true) == 6;
    assert SkipVoid(s, 5, true, true) == Ok(6);
  }

  /**
   * In `"""a\ #x<newline>b"""` the blank after the backslash is followed by
   * `#x`, which is text of the string, not a comment: as written the string
   * reads `ab`, read correctly the escape is refused at the backslash.
   */
  lemma CommentAfterContinuation()
    ensures ParseStringAsWritten(HashAfterBackslash, 0, |HashAfterBackslash|) == Ok("ab")
    ensures ParseString(HashAfterBackslash, 0, |HashAfterBackslash|) == Fail(InvalidEscape, 4)
  {
    HashAfterBackslashAsWritten(HashAfterBackslash);
    HashAfterBackslashCorrected(HashAfterBackslash);
  }
}
