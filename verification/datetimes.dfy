/**
 * The string side of the `TomlDate` constructor: the shape check against
 * the date-time pattern, the flags it derives (date part, time part,
 * offset), the rejection of hours above 23, and the text handed to the
 * `Date` constructor. Whether that constructor accepts the text (calendar
 * validity) is the parameter `dateOk`.
 */
module DateTimes {
  import opened Results
  import opened Text
  import opened Values

  predicate DigitsAt(s: string, i: nat, n: nat) {
    i + n <= |s| && forall j :: i <= j < i + n ==> IsDigit(s[j])
  }

  /** `\d{4}-\d{2}-\d{2}` at the start. */
  predicate DateAt(s: string) {
    |s| >= 10 && DigitsAt(s, 0, 4) && s[4] == '-' && DigitsAt(s, 5, 2) && s[7] == '-' && DigitsAt(s, 8, 2)
  }

  /** `\d{2}:\d{2}:\d{2}` at `i`. */
  predicate TimeAt(s: string, i: nat) {
    DigitsAt(s, i, 2) && CharIs(s, i + 2, ':') && DigitsAt(s, i + 3, 2) && CharIs(s, i + 5, ':') && DigitsAt(s, i + 6, 2)
  }

  /** Where the run of digits starting at `i` ends. */
  function DigitRun(s: string, i: nat): (r: nat)
    ensures i <= r && (r <= |s| || r == i)
    ensures forall j :: i <= j < r ==> IsDigit(s[j])
    ensures r < |s| ==> !IsDigit(s[r])
    decreases |s| - i
  {
    if i < |s| && IsDigit(s[i]) then DigitRun(s, i + 1) else i
  }

  /** `(?:\.\d+)?` at `i`: where the longest match ends. */
  function FractionEnd(s: string, i: nat): (r: nat)
    ensures r == i || (i + 2 <= r <= |s| && s[i] == '.')
    ensures forall j :: i < j < r ==> IsDigit(s[j])
    ensures r > i && r < |s| ==> !IsDigit(s[r])
    ensures r == i ==> !(i + 1 < |s| && s[i] == '.' && IsDigit(s[i + 1]))
  {
    if i + 1 < |s| && s[i] == '.' && IsDigit(s[i + 1]) then DigitRun(s, i + 1) else i
  }

  /** `Z`, in either case, at `i`. */
  predicate ZoneAt(s: string, i: nat) {
    CharIs(s, i, 'Z') || CharIs(s, i, 'z')
  }

  /** `[-+]\d{2}:\d{2}` at `i`. */
  predicate NumericOffsetAt(s: string, i: nat) {
    (CharIs(s, i, '+') || CharIs(s, i, '-')) && DigitsAt(s, i + 1, 2) && CharIs(s, i + 3, ':') && DigitsAt(s, i + 4, 2)
  }

  /** `(Z|[-+]\d{2}:\d{2})?` (case-insensitive) at `i`: where it ends. */
  function OffsetEnd(s: string, i: nat): (r: nat)
    ensures r == i + 1 <==> ZoneAt(s, i)
    ensures r == i + 6 <==> NumericOffsetAt(s, i)
    ensures r == i || r == i + 1 || r == i + 6
    ensures r <= Max(i, |s|)
  {
    if ZoneAt(s, i) then i + 1
    else if NumericOffsetAt(s, i) then i + 6
    else i
  }

  function DigitValue(c: char): nat {
    if IsDigit(c) then c as nat - '0' as nat else 0
  }

  /** The hour a time part starting at `b` names. */
  function Hour(s: string, b: nat): nat
    requires b + 1 < |s|
  {
    10 * DigitValue(s[b]) + DigitValue(s[b + 1])
  }

  /** What a match of the date-time pattern captured: the hour when there is a time part. */
  datatype Shape = Shape(hasDate: bool, hasTime: bool, hour: nat, offset: Option<string>)

  /*** The date-time pattern as a language ***/

  /** `(\d{4}-\d{2}-\d{2})?` spans `[0, a)`. */
  ghost predicate DatePart(s: string, a: nat) {
    a == 0 || (a == 10 && DateAt(s))
  }

  /** `[T ]?` (case-insensitive) spans `[a, b)`. */
  ghost predicate SepPart(s: string, a: nat, b: nat) {
    b == a || (b == a + 1 && (CharIs(s, a, 'T') || CharIs(s, a, 't') || CharIs(s, a, ' ')))
  }

  /** `(?:(\d{2}):\d{2}:\d{2}(?:\.\d+)?)?` spans `[b, c)`. */
  ghost predicate TimePart(s: string, b: nat, c: nat) {
    || c == b
    || (&& b + 8 <= c <= |s| && TimeAt(s, b)
        && (c == b + 8 || (b + 10 <= c && s[b + 8] == '.' && forall j :: b + 9 <= j < c ==> IsDigit(s[j]))))
  }

  /** `(Z|[-+]\d{2}:\d{2})?` (case-insensitive) spans `[c, |s|)`. */
  ghost predicate OffsetPart(s: string, c: nat) {
    || c == |s|
    || (c + 1 == |s| && ZoneAt(s, c))
    || (c + 6 == |s| && NumericOffsetAt(s, c))
  }

  /** `s` splits at `a`, `b`, `c` into the four optional parts of the pattern. */
  ghost predicate Split(s: string, a: nat, b: nat, c: nat) {
    a <= b <= c <= |s| && DatePart(s, a) && SepPart(s, a, b) && TimePart(s, b, c) && OffsetPart(s, c)
  }

  /** `s` matches `^(\d{4}-\d{2}-\d{2})?[T ]?(?:(\d{2}):\d{2}:\d{2}(?:\.\d+)?)?(Z|[-+]\d{2}:\d{2})?$`. */
  ghost predicate DateTimePattern(s: string) {
    exists a: nat, b: nat, c: nat :: Split(s, a, b, c)
  }

  /** The groups a split captures. */
  ghost function ShapeOf(s: string, a: nat, b: nat, c: nat): Shape
    requires Split(s, a, b, c)
  {
    Shape(a == 10, b < c, if b < c then Hour(s, b) else 0, if c < |s| then Some(s[c..|s|]) else None)
  }

  /**
   * A match of the date-time pattern (case-insensitive), found by taking
   * each optional part whenever it is there.
   */
  function MatchDateTime(s: string): (r: Option<Shape>)
    ensures r.Some? && r.value.hasDate ==> DateAt(s)
    ensures r.Some? && r.value.offset.Some? ==> |r.value.offset.value| > 0
  {
    var p0 := if DateAt(s) then 10 else 0;
    var p1 := if CharIs(s, p0, 'T') || CharIs(s, p0, 't') || CharIs(s, p0, ' ') then p0 + 1 else p0;
    var time := TimeAt(s, p1);
    var p2 := if time then FractionEnd(s, p1 + 8) else p1;
    var p3 := OffsetEnd(s, p2);
    if p3 == |s| then
      var hour := if time then Hour(s, p1) else 0;
      Some(Shape(DateAt(s), time, hour, if p3 > p2 then Some(s[p2..p3]) else None))
    else None
  }

  /** What `MatchDateTime` finds is a split of the pattern, with the groups it captures. */
  lemma MatchDateTimeSound(s: string)
    ensures MatchDateTime(s).Some? ==>
      exists a: nat, b: nat, c: nat :: Split(s, a, b, c) && MatchDateTime(s).value == ShapeOf(s, a, b, c)
  {
    var p0 := if DateAt(s) then 10 else 0;
    var p1 := if CharIs(s, p0, 'T') || CharIs(s, p0, 't') || CharIs(s, p0, ' ') then p0 + 1 else p0;
    var p2 := if TimeAt(s, p1) then FractionEnd(s, p1 + 8) else p1;
    if MatchDateTime(s).Some? {
      assert Split(s, p0, p1, p2);
      assert (p1 < p2) == TimeAt(s, p1);
      assert MatchDateTime(s).value == ShapeOf(s, p0, p1, p2);
    }
  }

  /** A split takes the date part whenever it is there. */
  lemma SplitTakesDate(s: string, a: nat, b: nat, c: nat)
    requires Split(s, a, b, c)
    ensures a == (if DateAt(s) then 10 else 0)
  {
    assert DateAt(s) ==> IsDigit(s[0]) && IsDigit(s[2]);
  }

  /** A split takes the separator whenever it is there. */
  lemma SplitTakesSep(s: string, a: nat, b: nat, c: nat)
    requires Split(s, a, b, c)
    ensures b == (if CharIs(s, a, 'T') || CharIs(s, a, 't') || CharIs(s, a, ' ') then a + 1 else a)
  {
  }

  /** A split takes the time part, with the longest fraction, whenever it is there. */
  lemma SplitTakesTime(s: string, a: nat, b: nat, c: nat)
    requires Split(s, a, b, c)
    ensures c == (if TimeAt(s, b) then FractionEnd(s, b + 8) else b)
  {
    assert TimeAt(s, b) ==> IsDigit(s[b]);
    if TimeAt(s, b) {
      var f := FractionEnd(s, b + 8);
      assert c != b;
      assert f <= c by {
        assert forall j :: b + 8 < j < f ==> IsDigit(s[j]);
      }
      assert c <= f;
    }
  }

  /**
   * The pattern splits a text in at most one way, and `MatchDateTime` finds
   * it: taking an optional part that is there never loses a match.
   */
  lemma MatchDateTimeComplete(s: string, a: nat, b: nat, c: nat)
    requires Split(s, a, b, c)
    ensures MatchDateTime(s) == Some(ShapeOf(s, a, b, c))
  {
    SplitTakesDate(s, a, b, c);
    SplitTakesSep(s, a, b, c);
    SplitTakesTime(s, a, b, c);
    assert OffsetEnd(s, c) == |s|;
    assert (b < c) == TimeAt(s, b);
  }

  /** `MatchDateTime` answers exactly when the text matches the pattern. */
  lemma MatchDateTimeIff(s: string)
    ensures MatchDateTime(s).Some? <==> DateTimePattern(s)
  {
    MatchDateTimeSound(s);
    if DateTimePattern(s) {
      var a: nat, b: nat, c: nat :| Split(s, a, b, c);
      MatchDateTimeComplete(s, a, b, c);
    }
  }

  /** `String.prototype.toUpperCase` on one character a date-time may hold. */
  function Upper(c: char): char {
    if 'a' <= c <= 'z' then (c as int - 32) as char else c
  }

  /** `String.prototype.toUpperCase` on the characters a date-time may hold. */
  function AsciiUpper(s: string): (r: string)
    ensures |r| == |s|
    ensures forall j :: 0 <= j < |s| ==> r[j] == Upper(s[j])
  {
    if s == [] then [] else AsciiUpper(s[..|s| - 1]) + [Upper(s[|s| - 1])]
  }

  /** The text before the `T`-for-space replacement: a missing date becomes `0000-01-01T`. */
  function Dated(v: string, m: Shape): string {
    if m.hasDate then v else "0000-01-01T" + v
  }

  /**
   * The text handed to the `Date` constructor: a time without a date gets
   * the date `0000-01-01T`, a space between date and time becomes `T`, the
   * text is upper-cased, and a time without an offset is read as UTC.
   */
  function DateText(v: string, m: Shape): (r: string)
    ensures !m.hasDate ==> |r| >= 11 && r[..11] == "0000-01-01T"
    ensures m.hasTime && m.offset.None? ==> |r| > 0 && r[|r| - 1] == 'Z'
    ensures |r| == |Dated(v, m)| + (if m.hasTime && m.offset.None? then 1 else 0)
    ensures forall j :: 0 <= j < |Dated(v, m)| ==>
      r[j] == (if j == 10 && m.hasTime && Dated(v, m)[j] == ' ' then 'T' else Upper(Dated(v, m)[j]))
  {
    var full := Dated(v, m);
    var spaced := if m.hasTime && CharIs(full, 10, ' ') then full[..10] + "T" + full[11..] else full;
    var r := AsciiUpper(spaced) + (if m.offset.None? && m.hasTime then "Z" else "");
    assert !m.hasDate ==> r[..11] == "0000-01-01T" by {
      if !m.hasDate {
        assert spaced == full && full[..11] == "0000-01-01T";
        assert forall j :: 0 <= j < 11 ==> r[j] == full[j];
      }
    }
    r
  }

  /**
   * `new TomlDate(value)`, then `isValid()`: the classified date-time, or
   * `None` when the value is not one. `dateOk` says whether the `Date`
   * constructor accepts a text.
   */
  function ParseDate(v: string, dateOk: string -> bool): (r: Option<DateTime>)
    ensures r.Some? <==>
      && MatchDateTime(v).Some?
      && (MatchDateTime(v).value.hasDate || MatchDateTime(v).value.hasTime)
      && (MatchDateTime(v).value.hasTime ==> MatchDateTime(v).value.hour <= 23)
      && dateOk(DateText(v, MatchDateTime(v).value))
    ensures r.Some? ==>
      var m := MatchDateTime(v).value;
      r.value == DateTime(m.hasDate, m.hasTime, m.offset, DateText(v, m))
  {
    match MatchDateTime(v)
    case None => None
    case Some(m) =>
      if m.hasTime && m.hour > 23 then None
      else
        var text := DateText(v, m);
        if dateOk(text) && (m.hasDate || m.hasTime) then Some(DateTime(m.hasDate, m.hasTime, m.offset, text)) else None
  }

  /**
   * A value that splits by the pattern is a date-time exactly when it has a
   * date or a time part, its hour is at most 23 and `Date` accepts its text;
   * the result records the parts the split has and the offset as written.
   */
  lemma ParseDateSplit(v: string, dateOk: string -> bool, a: nat, b: nat, c: nat)
    requires Split(v, a, b, c)
    ensures var m := ShapeOf(v, a, b, c);
      ParseDate(v, dateOk) ==
        if (a == 10 || b < c) && (b < c ==> Hour(v, b) <= 23) && dateOk(DateText(v, m))
        then Some(DateTime(a == 10, b < c, if c < |v| then Some(v[c..|v|]) else None, DateText(v, m)))
        else None
  {
    MatchDateTimeComplete(v, a, b, c);
  }

  /** A value that does not match the pattern is no date-time. */
  lemma ParseDateNoMatch(v: string, dateOk: string -> bool)
    requires !DateTimePattern(v)
    ensures ParseDate(v, dateOk) == None
  {
    MatchDateTimeIff(v);
  }

  /*** Classification ***/

  lemma UpperKeeps(s: string)
    requires forall j :: 0 <= j < |s| ==> !('a' <= s[j] <= 'z')
    ensures AsciiUpper(s) == s
  {
  }

  /** `1979-05-27` is a local date. */
  lemma LocalDate(v: string, dateOk: string -> bool)
    requires |v| == 10 && DateAt(v)
    ensures ParseDate(v, dateOk) == if dateOk(v) then Some(DateTime(true, false, None, v)) else None
  {
    assert !TimeAt(v, 10);
    var m := Shape(true, false, 0, None);
    assert MatchDateTime(v) == Some(m);
    assert forall j :: 0 <= j < |v| ==> IsDigit(v[j]) || v[j] == '-';
    UpperKeeps(v);
    assert DateText(v, m) == v + "";
    assert v + "" == v;
  }

  /** `07:32:00` is a local time, handed to `Date` on the day `0000-01-01` in UTC. */
  lemma LocalTime(v: string, dateOk: string -> bool)
    requires |v| == 8 && TimeAt(v, 0) && Hour(v, 0) <= 23
    ensures var text := "0000-01-01T" + v + "Z";
      ParseDate(v, dateOk) == if dateOk(text) then Some(DateTime(false, true, None, text)) else None
  {
    assert !DateAt(v);
    assert MatchDateTime(v) == Some(Shape(false, true, Hour(v, 0), None));
    UpperKeeps("0000-01-01T" + v);
  }

  /** A local time whose hour is above 23 is not a date-time. */
  lemma HourRollover(v: string, dateOk: string -> bool)
    requires |v| == 8 && TimeAt(v, 0) && Hour(v, 0) > 23
    ensures ParseDate(v, dateOk) == None
  {
    assert !DateAt(v);
    assert MatchDateTime(v) == Some(Shape(false, true, Hour(v, 0), None));
  }

  lemma SpacedShape(v: string)
    requires |v| == 20 && DateAt(v) && v[10] == ' ' && TimeAt(v, 11) && v[19] == 'z'
    ensures MatchDateTime(v) == Some(Shape(true, true, Hour(v, 11), Some("z")))
  {
    assert FractionEnd(v, 19) == 19;
    assert OffsetEnd(v, 19) == 20;
    assert v[19..20] == "z";
  }

  /**
   * `1979-05-27 07:32:00z` is an offset date-time: the space becomes `T` and
   * the text is upper-cased, while the offset is kept as written.
   */
  lemma SpacedOffsetDateTime(v: string, dateOk: string -> bool)
    requires |v| == 20 && DateAt(v) && v[10] == ' ' && TimeAt(v, 11) && v[19] == 'z'
    requires Hour(v, 11) <= 23
    ensures var text := v[..10] + "T" + v[11..19] + "Z";
      ParseDate(v, dateOk) == if dateOk(text) then Some(DateTime(true, true, Some("z"), text)) else None
  {
    var m := Shape(true, true, Hour(v, 11), Some("z"));
    SpacedShape(v);
    var spaced := v[..10] + "T" + v[11..];
    var text := v[..10] + "T" + v[11..19] + "Z";
    assert |spaced| == 20 && |text| == 20;
    assert forall j :: 0 <= j < 19 ==> spaced[j] == text[j] && (IsDigit(text[j]) || text[j] in "-T:");
    assert spaced[19] == 'z' && text[19] == 'Z';
    assert AsciiUpper(spaced) == text;
    assert DateText(v, m) == text + "";
    assert text + "" == text;
  }
}
