/**
 * `parseValue`: what a bare (unquoted, non-structured) value is. Booleans
 * and the float constants by name; integers and floats by the number
 * grammar, with the leading-zero rule and the safe-integer policy; and
 * anything else must be a date-time.
 */
module Scalars {
  import opened Results
  import opened Text
  import opened Values
  import opened DateTimes

  /** The `integersAsBigInt` option: unset/false, `true`, or `'asNeeded'`. */
  datatype BigIntMode = Never | Always | AsNeeded

  /** `Number.MAX_SAFE_INTEGER` (2^53 - 1). */
  const MaxSafe: int := 0x1F_FFFF_FFFF_FFFF

  function Abs(n: int): nat {
    if n < 0 then -n else n
  }

  /*** The number grammar ***/

  predicate DigitOf(c: char, hex: bool) {
    if hex then IsHexDigit(c) else IsDigit(c)
  }

  /** `\d(_?\d)*`: digits, each underscore between two digits. */
  predicate Grouped(s: string, hex: bool) {
    && |s| > 0 && DigitOf(s[0], hex)
    && forall i {:trigger s[i]} :: 0 <= i < |s| ==> DigitOf(s[i], hex) || (s[i] == '_' && i + 1 < |s| && DigitOf(s[i + 1], hex))
  }

  predicate IsSign(c: char) {
    c == '+' || c == '-'
  }

  /** `^((0x[0-9a-fA-F](_?[0-9a-fA-F])*)|(([+-]|0[ob])?\d(_?\d)*))$` */
  predicate IntLit(v: string) {
    || (|v| >= 2 && v[..2] == "0x" && Grouped(v[2..], true))
    || Grouped(v, false)
    || (|v| >= 1 && IsSign(v[0]) && Grouped(v[1..], false))
    || (|v| >= 2 && (v[..2] == "0o" || v[..2] == "0b") && Grouped(v[2..], false))
  }

  /** Where the first character satisfying `stop` is, or the length. */
  function FirstOf(s: string, e: char, f: char): (r: nat)
    ensures r <= |s|
    ensures forall j :: 0 <= j < r ==> s[j] != e && s[j] != f
    ensures r < |s| ==> s[r] == e || s[r] == f
  {
    if s == [] then 0
    else if s[0] == e || s[0] == f then 0
    else 1 + FirstOf(s[1..], e, f)
  }

  function Unsigned(v: string): string {
    if |v| > 0 && IsSign(v[0]) then v[1..] else v
  }

  /**
   * `^[+-]?\d(_?\d)*(\.\d(_?\d)*)?([eE][+-]?\d(_?\d)*)?$`. The digit groups
   * hold no `.`, `e` or `E`, so the first of each splits the literal.
   */
  predicate FloatLit(v: string) {
    var u := Unsigned(v);
    var e := FirstOf(u, 'e', 'E');
    var mantissa := u[..e];
    var d := FirstOf(mantissa, '.', '.');
    && Grouped(mantissa[..d], false)
    && (d == |mantissa| || Grouped(mantissa[d + 1..], false))
    && (e == |u| || Grouped(Unsigned(u[e + 1..]), false))
  }

  /** `^[+-]?0[0-9_]` */
  predicate HasLeadingZero(v: string) {
    var u := Unsigned(v);
    |u| >= 2 && u[0] == '0' && (IsDigit(u[1]) || u[1] == '_')
  }

  /** `value.replace(/_/g, '')` */
  function Strip(s: string): (r: string)
    ensures |r| <= |s|
    ensures forall j :: 0 <= j < |r| ==> r[j] != '_'
    ensures forall c :: c in r ==> c in s
  {
    if s == [] then []
    else if s[|s| - 1] == '_' then Strip(s[..|s| - 1])
    else Strip(s[..|s| - 1]) + [s[|s| - 1]]
  }

  /** Removing underscores keeps every other character, as often as it occurs. */
  lemma {:induction false} StripCount(s: string)
    ensures multiset(Strip(s)) == multiset(s)['_' := 0]
    decreases |s|
  {
    if s != [] {
      StripCount(s[..|s| - 1]);
      assert s == s[..|s| - 1] + [s[|s| - 1]];
    }
  }

  /** Removing underscores from a text with one more character at its end. */
  lemma StripSnoc(x: string, c: char)
    ensures Strip(x + [c]) == Strip(x) + (if c == '_' then [] else [c])
  {
    assert (x + [c])[..|x|] == x;
  }

  /** Removing underscores works piecewise, so it keeps the order of what remains. */
  lemma {:induction false} StripAppend(a: string, b: string)
    ensures Strip(a + b) == Strip(a) + Strip(b)
    decreases |b|
  {
    if b == [] {
      assert a + b == a;
    } else {
      var b', c := b[..|b| - 1], b[|b| - 1];
      StripAppend(a, b');
      assert a + b == (a + b') + [c] && b == b' + [c];
      StripSnoc(a + b', c);
      StripSnoc(b', c);
    }
  }

  /** The digit groups of a literal lose their underscores and keep at least one digit. */
  lemma GroupedStrip(s: string, hex: bool)
    requires Grouped(s, hex)
    ensures |Strip(s)| > 0 && forall j :: 0 <= j < |Strip(s)| ==> DigitOf(Strip(s)[j], hex)
  {
    var r := Strip(s);
    StripCount(s);
    assert multiset(r)[s[0]] == multiset(s)[s[0]] > 0;
    forall j | 0 <= j < |r|
      ensures DigitOf(r[j], hex)
    {
      assert r[j] in r;
      var i :| 0 <= i < |s| && s[i] == r[j];
    }
  }

  predicate AllBelow(s: string, radix: nat) {
    forall j :: 0 <= j < |s| ==> IsDigit(s[j]) && DigitValue(s[j]) < radix
  }

  /**
   * `+value` on an integer literal with its underscores removed: `None`
   * for `NaN`, which only an octal or binary literal with a digit out of
   * range produces.
   */
  function IntValue(w: string): Option<int> {
    if |w| >= 2 && w[..2] == "0x" then
      if forall j :: 2 <= j < |w| ==> IsHexDigit(w[j]) then Some(DigitsValue(w[2..], 16)) else None
    else if |w| >= 2 && (w[..2] == "0o" || w[..2] == "0b") then
      var radix := if w[1] == 'o' then 8 else 2;
      if AllBelow(w[2..], radix) then Some(DigitsValue(w[2..], radix)) else None
    else
      var u := Unsigned(w);
      if forall j :: 0 <= j < |u| ==> IsDigit(u[j]) then
        var n: int := DigitsValue(u, 10);
        Some(if |w| > 0 && w[0] == '-' then -n else n)
      else None
  }

  /** Removing underscores keeps a prefix that holds none. */
  lemma StripPrefix(v: string, n: nat)
    requires n <= |v| && forall j :: 0 <= j < n ==> v[j] != '_'
    ensures Strip(v) == v[..n] + Strip(v[n..])
  {
    assert v == v[..n] + v[n..];
    StripAppend(v[..n], v[n..]);
    StripNoUnderscore(v[..n]);
  }

  lemma HexLitValue(v: string)
    requires |v| >= 2 && v[..2] == "0x" && Grouped(v[2..], true)
    ensures IntValue(Strip(v)).Some?
  {
    assert v[0] == v[..2][0] && v[1] == v[..2][1];
    StripPrefix(v, 2);
    GroupedStrip(v[2..], true);
    var w := Strip(v);
    assert w == v[..2] + Strip(v[2..]);
    assert w[..2] == "0x" && w[2..] == Strip(v[2..]);
  }

  lemma DecimalLitValue(v: string)
    requires Grouped(v, false)
    ensures IntValue(Strip(v)).Some?
  {
    GroupedStrip(v, false);
    var w := Strip(v);
    assert IsDigit(w[0]) && (|w| >= 2 ==> IsDigit(w[1]));
    assert Unsigned(w) == w;
  }

  /** A sign and digits are a number for `+`. */
  lemma SignedDigitsValue(c: char, u: string)
    requires IsSign(c) && |u| > 0 && forall j :: 0 <= j < |u| ==> IsDigit(u[j])
    ensures IntValue([c] + u).Some?
  {
    var w := [c] + u;
    assert w[0] == c;
    assert Unsigned(w) == u;
  }

  lemma SignedLitValue(v: string)
    requires |v| >= 1 && IsSign(v[0]) && Grouped(v[1..], false)
    ensures IntValue(Strip(v)).Some?
  {
    StripPrefix(v, 1);
    GroupedStrip(v[1..], false);
    assert v[..1] == [v[0]];
    SignedDigitsValue(v[0], Strip(v[1..]));
  }

  /** An octal or binary prefix and digits: `NaN` exactly when a digit is out of range. */
  lemma RadixDigitsValue(p: string, u: string)
    requires p == "0o" || p == "0b"
    ensures IntValue(p + u).None? <==> !AllBelow(u, if p[1] == 'o' then 8 else 2)
  {
    var w := p + u;
    assert w[..2] == p && w[2..] == u && w[1] == p[1];
  }

  lemma RadixLitValue(v: string)
    requires |v| >= 2 && (v[..2] == "0o" || v[..2] == "0b") && Grouped(v[2..], false)
    ensures IntValue(Strip(v)).None? <==> !AllBelow(Strip(v[2..]), if v[1] == 'o' then 8 else 2)
  {
    assert v[0] == v[..2][0] && v[1] == v[..2][1];
    StripPrefix(v, 2);
    assert Strip(v) == v[..2] + Strip(v[2..]);
    RadixDigitsValue(v[..2], Strip(v[2..]));
  }

  /**
   * An integer literal with its underscores removed is a number for `+`,
   * except an octal or binary literal with a digit out of its range, which
   * reads as `NaN`.
   */
  lemma IntLitValue(v: string)
    requires IntLit(v)
    ensures IntValue(Strip(v)).None? <==>
      |v| >= 2 && (v[..2] == "0o" || v[..2] == "0b") && !AllBelow(Strip(v[2..]), if v[1] == 'o' then 8 else 2)
  {
    if |v| >= 2 && v[..2] == "0x" && Grouped(v[2..], true) {
      HexLitValue(v);
    } else if Grouped(v, false) {
      DecimalLitValue(v);
      assert IsDigit(v[0]) && (|v| >= 2 ==> IsDigit(v[1]) || v[1] == '_');
    } else if |v| >= 1 && IsSign(v[0]) && Grouped(v[1..], false) {
      SignedLitValue(v);
    } else {
      RadixLitValue(v);
    }
  }

  /*** parseValue ***/

  /** The names `parseValue` recognises before looking at numbers. */
  function Constant(v: string, mode: BigIntMode): Option<Value> {
    if v == "true" then Some(Bool(true))
    else if v == "false" then Some(Bool(false))
    else if v == "-inf" then Some(Float(Infinity(true)))
    else if v == "inf" || v == "+inf" then Some(Float(Infinity(false)))
    else if v == "nan" || v == "+nan" || v == "-nan" then Some(Float(NotANumber))
    else if v == "-0" then Some(Integer(0, mode != Never))
    else None
  }

  /**
   * `parseValue(value, toml, ptr, integersAsBigInt)`: errors are reported at
   * `ptr`, the start of the value.
   */
  function ParseValue(v: string, ptr: int, mode: BigIntMode, dateOk: string -> bool): (r: Result<Value>)
    ensures r.Err? ==> r.error.ptr == ptr
    ensures r.Ok? ==> r.value.Bool? || r.value.Integer? || r.value.Float? || r.value.Date?
    ensures r.Ok? && r.value.Bool? <==> v == "true" || v == "false"
    ensures r.Ok? && r.value.Bool? ==> r.value.b == (v == "true")
    ensures Constant(v, mode).None? ==>
      (r.Err? && r.error.kind == LeadingZero <==> (IntLit(v) || FloatLit(v)) && HasLeadingZero(v))
    ensures r.Err? && r.error.kind == InvalidValue <==> Constant(v, mode).None? && !IntLit(v) && !FloatLit(v) && ParseDate(v, dateOk).None?
    ensures r.Ok? && r.value.Date? <==> Constant(v, mode).None? && !IntLit(v) && !FloatLit(v) && ParseDate(v, dateOk).Some?
    ensures r.Ok? && r.value.Integer? && v != "-0" ==>
      && IntLit(v) && !HasLeadingZero(v) && IntValue(Strip(v)) == Some(r.value.n)
      && (mode == Never ==> Abs(r.value.n) <= MaxSafe)
      && (r.value.big <==> mode == Always || Abs(r.value.n) > MaxSafe)
    ensures r.Err? && r.error.kind == LossyInteger <==>
      && Constant(v, mode).None? && IntLit(v) && !HasLeadingZero(v) && mode == Never
      && IntValue(Strip(v)).Some? && Abs(IntValue(Strip(v)).value) > MaxSafe
    ensures r.Err? && r.error.kind == InvalidNumber <==>
      Constant(v, mode).None? && IntLit(v) && !HasLeadingZero(v) && IntValue(Strip(v)).None?
    // `-0` is the integer zero, a BigInt whenever BigInts are asked for at all.
    ensures v == "-0" ==> r == Ok(Integer(0, mode != Never))
    ensures Constant(v, mode).None? && FloatLit(v) && !IntLit(v) && !HasLeadingZero(v) ==>
      r == Ok(Float(Finite(Strip(v))))
    // The named constants read as their values, whatever else they might look like.
    ensures Constant(v, mode).Some? ==> r == Ok(Constant(v, mode).value)
    ensures v == "inf" || v == "+inf" ==> r == Ok(Float(Infinity(false)))
    ensures v == "-inf" ==> r == Ok(Float(Infinity(true)))
    ensures v == "nan" || v == "+nan" || v == "-nan" ==> r == Ok(Float(NotANumber))
    // An integer literal with a value reads as that integer unless it is lossy.
    ensures Constant(v, mode).None? && IntLit(v) && !HasLeadingZero(v) && IntValue(Strip(v)).Some? ==>
      var n := IntValue(Strip(v)).value;
      !(mode == Never && Abs(n) > MaxSafe) ==> r == Ok(Integer(n, mode == Always || Abs(n) > MaxSafe))
  {
    if Constant(v, mode).Some? then Ok(Constant(v, mode).value)
    else if IntLit(v) || FloatLit(v) then
      if HasLeadingZero(v) then Fail(LeadingZero, ptr)
      else
        var w := Strip(v);
        if IntLit(v) then
          match IntValue(w)
          case None => Fail(InvalidNumber, ptr)
          case Some(n) =>
            var unsafe := Abs(n) > MaxSafe;
            if unsafe && mode == Never then Fail(LossyInteger, ptr)
            else Ok(Integer(n, unsafe || mode == Always))
        else Ok(Float(Finite(w)))
    else
      match ParseDate(v, dateOk)
      case None => Fail(InvalidValue, ptr)
      case Some(d) => Ok(Date(d))
  }

  /** A digit followed by a `,` is no value of any kind. */
  lemma DigitCommaInvalid(d: char, ptr: int, mode: BigIntMode, dateOk: string -> bool)
    requires IsDigit(d)
    ensures ParseValue([d, ','], ptr, mode, dateOk) == Fail(InvalidValue, ptr)
  {
    var v := [d, ','];
    assert v[1] == ',';
    assert v[1..][0] == ',';
    assert !IntLit(v) by { assert v[..2] != "0x" && v[..2] != "0o" && v[..2] != "0b" && !IsSign(v[0]); }
    assert FirstOf(v, 'e', 'E') == 2;
    assert FirstOf(v, '.', '.') == 2;
    assert !FloatLit(v);
    assert MatchDateTime(v).None?;
    assert Constant(v, mode).None?;
  }

  /** The named constants are no numbers by the grammar, apart from `-0`. */
  lemma ConstantNotNumber(v: string, mode: BigIntMode)
    requires Constant(v, mode).Some? && v != "-0"
    ensures !IntLit(v) && !FloatLit(v)
  {
    assert !IsDigit(v[0]) && !IsDigit(Unsigned(v)[0]);
  }

  lemma PointFloatLit()
    ensures FloatLit("3.14") && !IntLit("3.14")
  {
    PointIsFloat("3.14");
    PointNotInt("3.14");
  }

  lemma PointIsFloat(v: string)
    requires v == "3.14"
    ensures FloatLit(v)
  {
    assert Unsigned(v) == v;
    assert FirstOf(v, 'e', 'E') == 4;
    assert FirstOf(v, '.', '.') == 1;
    assert v[..4][..1] == "3" && v[..4][2..] == "14";
  }

  lemma PointNotInt(v: string)
    requires v == "3.14"
    ensures !IntLit(v)
  {
    assert !Grouped(v, false) by { assert v[1] == '.'; }
  }

  lemma PointPlain(mode: BigIntMode)
    ensures Constant("3.14", mode).None? && !HasLeadingZero("3.14") && Strip("3.14") == "3.14"
  {
    StripNoUnderscore("3.14");
  }

  /** `3.14` is a float, kept as its text. */
  lemma FloatExample(ptr: int, mode: BigIntMode, dateOk: string -> bool)
    ensures ParseValue("3.14", ptr, mode, dateOk) == Ok(Float(Finite("3.14")))
  {
    PointFloatLit();
    PointPlain(mode);
  }

  /** `007` matches the integer pattern but has a leading zero. */
  lemma LeadingZeroExample(ptr: int, mode: BigIntMode, dateOk: string -> bool)
    ensures ParseValue("007", ptr, mode, dateOk) == Fail(LeadingZero, ptr)
  {
    assert Grouped("007", false);
  }

  /** Removing the one underscore between two runs without any joins them. */
  lemma StripOneUnderscore(a: string, b: string)
    requires forall j :: 0 <= j < |a| ==> a[j] != '_'
    requires forall j :: 0 <= j < |b| ==> b[j] != '_'
    ensures Strip(a + "_" + b) == a + b
  {
    StripAppend(a + "_", b);
    StripSnoc(a, '_');
    StripNoUnderscore(a);
    StripNoUnderscore(b);
  }

  /** An integer literal within the safe range reads as its value. */
  lemma SafeIntegerReads(v: string, n: int, ptr: int, mode: BigIntMode, dateOk: string -> bool)
    requires Constant(v, mode).None? && IntLit(v) && !HasLeadingZero(v)
    requires IntValue(Strip(v)) == Some(n) && Abs(n) <= MaxSafe
    ensures ParseValue(v, ptr, mode, dateOk) == Ok(Integer(n, mode == Always))
  {
    hide ParseValue;
  }

  lemma HexText()
    ensures IntLit("0xf_f") && !HasLeadingZero("0xf_f") && Strip("0xf_f") == "0xff"
  {
    var v := "0xf_f";
    assert v[..2] == "0x" && v[2..] == "f_f";
    assert Grouped(v[2..], true);
    StripOneUnderscore("0xf", "f");
    assert "0xf" + "_" + "f" == v;
  }

  /** A hexadecimal literal with an underscore reads as its value. */
  lemma HexExample(ptr: int, mode: BigIntMode, dateOk: string -> bool)
    ensures ParseValue("0xf_f", ptr, mode, dateOk) == Ok(Integer(255, mode == Always))
  {
    hide ParseValue;
    HexText();
    var w := "0xff";
    assert w[..2] == "0x" && w[2..] == "ff";
    assert DigitsValue("ff", 16) == 255;
    assert IntValue(w) == Some(255);
    SafeIntegerReads("0xf_f", 255, ptr, mode, dateOk);
  }

  lemma BinaryText()
    ensures IntLit("0b1_01") && !HasLeadingZero("0b1_01") && Strip("0b1_01") == "0b101"
  {
    var v := "0b1_01";
    assert v[..2] == "0b" && v[2..] == "1_01";
    assert Grouped(v[2..], false);
    StripOneUnderscore("0b1", "01");
    assert "0b1" + "_" + "01" == v;
  }

  /** A binary literal reads as its value. */
  lemma BinaryExample(ptr: int, mode: BigIntMode, dateOk: string -> bool)
    ensures ParseValue("0b1_01", ptr, mode, dateOk) == Ok(Integer(5, mode == Always))
  {
    hide ParseValue;
    BinaryText();
    var w := "0b101";
    assert w[..2] == "0b" && w[2..] == "101";
    assert "101"[..2] == "10" && "10"[..1] == "1";
    assert DigitsValue("10", 2) == 2;
    assert AllBelow("101", 2);
    assert IntValue(w) == Some(5);
    SafeIntegerReads("0b1_01", 5, ptr, mode, dateOk);
  }

  /** An octal literal with a digit out of range is an invalid number. */
  lemma OctalOutOfRange(ptr: int, mode: BigIntMode, dateOk: string -> bool)
    ensures ParseValue("0o8", ptr, mode, dateOk) == Fail(InvalidNumber, ptr)
  {
    hide ParseValue;
    OctalText();
  }

  lemma OctalText()
    ensures IntLit("0o8") && !HasLeadingZero("0o8") && IntValue(Strip("0o8")).None?
  {
    var v := "0o8";
    assert v[..2] == "0o" && v[2..] == "8";
    assert Grouped(v[2..], false);
    StripNoUnderscore(v);
    assert !AllBelow(v[2..], 8);
  }

  lemma SignedText()
    ensures IntLit("+1_0") && !HasLeadingZero("+1_0") && Strip("+1_0") == "+10"
  {
    var v := "+1_0";
    assert IsSign(v[0]) && v[1..] == "1_0";
    assert Grouped(v[1..], false);
    StripOneUnderscore("+1", "0");
    assert "+1" + "_" + "0" == v;
  }

  /** A signed literal with an underscore reads as its value. */
  lemma SignedExample(ptr: int, mode: BigIntMode, dateOk: string -> bool)
    ensures ParseValue("+1_0", ptr, mode, dateOk) == Ok(Integer(10, mode == Always))
  {
    hide ParseValue;
    SignedText();
    var w := "+10";
    assert w[..2][0] == '+' && "0x"[0] == '0' && "0o"[0] == '0' && "0b"[0] == '0';
    assert w[..2] != "0x" && w[..2] != "0o" && w[..2] != "0b";
    assert IsSign(w[0]) && w[1..] == "10";
    assert Unsigned(w) == "10";
    assert "10"[..1] == "1";
    assert DigitsValue("10", 10) == 10;
    assert IntValue(w) == Some(10);
    SafeIntegerReads("+1_0", 10, ptr, mode, dateOk);
  }

  lemma TrailingPointNoNumber()
    ensures !IntLit("1.") && !FloatLit("1.")
  {
    var v := "1.";
    assert !Grouped(v, false) by { assert v[1] == '.'; }
    assert FirstOf(v, 'e', 'E') == 2;
    assert FirstOf(v, '.', '.') == 1;
    assert v[2..] == [];
  }

  /** `1.` has no digit after its point: no number, and no date-time. */
  lemma TrailingPointExample(ptr: int, mode: BigIntMode, dateOk: string -> bool)
    ensures ParseValue("1.", ptr, mode, dateOk) == Fail(InvalidValue, ptr)
  {
    TrailingPointNoNumber();
    assert MatchDateTime("1.").None?;
    assert Constant("1.", mode).None?;
  }

  /*** The decimal round trip ***/

  function DigitChar(d: nat): (c: char)
    requires d < 10
    ensures IsDigit(c) && HexDigitValue(c) == d
  {
    ('0' as int + d) as char
  }

  /** The shortest decimal numeral of `n`. */
  function NatDigits(n: nat): (r: string)
    ensures |r| > 0
    ensures forall j :: 0 <= j < |r| ==> IsDigit(r[j])
    ensures |r| > 1 ==> r[0] != '0'
    ensures n > 0 ==> r[0] != '0'
  {
    if n < 10 then [DigitChar(n)] else NatDigits(n / 10) + [DigitChar(n % 10)]
  }

  lemma {:induction false} NatDigitsValue(n: nat)
    ensures DigitsValue(NatDigits(n), 10) == n
  {
    if n >= 10 {
      NatDigitsValue(n / 10);
      var s := NatDigits(n);
      assert s[..|s| - 1] == NatDigits(n / 10);
    }
  }

  /** How TOML writes an integer in decimal: `-` and the digits of its magnitude. */
  function Decimal(n: int): (r: string)
    ensures |r| > 0
  {
    if n < 0 then "-" + NatDigits(-n) else NatDigits(n)
  }

  lemma {:induction false} StripNoUnderscore(s: string)
    requires forall j :: 0 <= j < |s| ==> s[j] != '_'
    ensures Strip(s) == s
  {
    if s != [] {
      StripNoUnderscore(s[..|s| - 1]);
      assert s[..|s| - 1] + [s[|s| - 1]] == s;
    }
  }

  lemma DigitsGrouped(s: string)
    requires |s| > 0 && forall j :: 0 <= j < |s| ==> IsDigit(s[j])
    ensures Grouped(s, false)
  {
  }

  /** A decimal numeral is no named constant: each of those holds a letter. */
  lemma DecimalNotConstant(n: int, mode: BigIntMode)
    ensures Constant(Decimal(n), mode).None?
  {
    var v := Decimal(n);
    assert forall j :: 0 <= j < |v| ==> IsDigit(v[j]) || (j == 0 && v[j] == '-');
    assert |v| >= 2 && v[0] == '-' ==> v[1] != '0';
  }

  /** The decimal numeral of `n` is an integer literal whose value is `n`. */
  lemma DecimalIntValue(n: int)
    ensures IntLit(Decimal(n)) && !HasLeadingZero(Decimal(n))
    ensures Strip(Decimal(n)) == Decimal(n)
    ensures IntValue(Decimal(n)) == Some(n)
  {
    var v := Decimal(n);
    var u := NatDigits(Abs(n));
    assert Unsigned(v) == u;
    DecimalLiteral(n);
    StripNoUnderscore(v);
    DecimalValue(n);
  }

  lemma DecimalLiteral(n: int)
    ensures IntLit(Decimal(n)) && !HasLeadingZero(Decimal(n))
  {
    var v := Decimal(n);
    var u := NatDigits(Abs(n));
    assert Unsigned(v) == u;
    DigitsGrouped(u);
    if n < 0 {
      assert v[1..] == u;
      assert Grouped(v[1..], false);
    } else {
      assert Grouped(v, false);
    }
    assert |u| >= 2 ==> u[0] != '0';
  }

  lemma DecimalValue(n: int)
    ensures IntValue(Decimal(n)) == Some(n)
  {
    var v := Decimal(n);
    var u := NatDigits(Abs(n));
    assert Unsigned(v) == u;
    NatDigitsValue(Abs(n));
    assert !(|v| >= 2 && v[..2] == "0x");
    assert !(|v| >= 2 && (v[..2] == "0o" || v[..2] == "0b"));
  }

  /**
   * Reading back the decimal numeral of any integer gives that integer, as
   * a Number when it is safe and as a BigInt when it is not (or always,
   * under `integersAsBigInt: true`); a numeral beyond the safe range with
   * `integersAsBigInt` unset is an error rather than a rounded Number.
   */
  lemma DecimalRoundTrip(n: int, ptr: int, mode: BigIntMode, dateOk: string -> bool)
    ensures ParseValue(Decimal(n), ptr, mode, dateOk) ==
      if Abs(n) > MaxSafe && mode == Never then Fail(LossyInteger, ptr)
      else Ok(Integer(n, Abs(n) > MaxSafe || mode == Always))
  {
    DecimalNotConstant(n, mode);
    DecimalIntValue(n);
  }
}
