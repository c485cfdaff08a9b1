/**
 * Whole statements and small documents: how the driver strings lines
 * together, what a header line declares, and what `parse` makes of three
 * small documents — a table declared twice (`[a]` twice), an array of
 * tables given two elements (`[[a]]` twice) and a header followed by stray
 * text on its line — along with an array header left unclosed.
 */
module Statements {
  import opened Results
  import opened Text
  import opened Cursor
  import opened Values
  import opened Tables
  import opened KeyParser
  import opened Extract
  import opened Document

  /*** The driver ***/

  /** A character that may start a statement: no white space, line break or comment. */
  predicate StartsStatement(c: char) {
    c != ' ' && c != '\t' && c != '\n' && c != '\r' && c != '#'
  }

  /** A statement ending at `e` is followed by the end of the document, or by a line break and the next statement. */
  predicate EndsLine(s: string, e: nat) {
    e == |s| || (e + 1 < |s| && s[e] == '\n' && StartsStatement(s[e + 1]))
  }

  /** Where parsing goes on after a statement ending at `e`. */
  function NextLine(s: string, e: nat): nat {
    if e == |s| then e else e + 1
  }

  lemma LineBreak(s: string, e: nat)
    requires EndsLine(s, e)
    ensures SkipVoid(s, e, true, false) == Ok(e)
    ensures SkipVoid(s, e, false, false) == Ok(NextLine(s, e))
  {
    assert SkipBlanks(s, e, true) == e;
    if e < |s| {
      assert SkipBlanks(s, e + 1, false) == e + 1;
      assert SkipBlanks(s, e, false) == e + 1;
    }
  }

  /** A header followed by the end of its line: the next statement starts on the next line. */
  lemma HeaderLine(s: string, p: nat, st: State, o: Options, maxDepth: nat, rd: Reading)
    requires p < |s| && s[p] == '['
    requires Header(s, p, st, rd).Ok? && EndsLine(s, Header(s, p, st, rd).value.1)
    ensures var h := Header(s, p, st, rd).value;
      Line(s, p, st, o, maxDepth, rd) == Ok((h.0, NextLine(s, h.1)))
  {
    LineBreak(s, Header(s, p, st, rd).value.1);
  }

  /** A header that fails fails its line. */
  lemma HeaderLineFails(s: string, p: nat, st: State, o: Options, maxDepth: nat, rd: Reading)
    requires p < |s| && s[p] == '[' && Header(s, p, st, rd).Err?
    ensures Line(s, p, st, o, maxDepth, rd) == Err(Header(s, p, st, rd).error)
  {
  }

  /** A key-value line followed by the end of its line: the next statement starts on the next line. */
  lemma AssignLine(s: string, p: nat, st: State, o: Options, maxDepth: nat, rd: Reading)
    requires p < |s| && s[p] != '['
    requires Assignment(s, p, st, o, maxDepth, rd).Ok? && EndsLine(s, Assignment(s, p, st, o, maxDepth, rd).value.1)
    ensures var a := Assignment(s, p, st, o, maxDepth, rd).value;
      Line(s, p, st, o, maxDepth, rd) == Ok((a.0, NextLine(s, a.1)))
  {
    LineBreak(s, Assignment(s, p, st, o, maxDepth, rd).value.1);
  }

  /** A statement after which parsing goes on at `q` hands the rest of the document on from there. */
  lemma LinesStep(s: string, p: nat, st: State, o: Options, maxDepth: nat, rd: Reading, st': State, q: nat)
    requires p < |s| && Line(s, p, st, o, maxDepth, rd) == Ok((st', q))
    ensures Lines(s, p, st, o, maxDepth, rd) == Lines(s, q, st', o, maxDepth, rd)
  {
  }

  /** A statement that fails fails the document. */
  lemma LinesFail(s: string, p: nat, st: State, o: Options, maxDepth: nat, rd: Reading)
    requires p < |s| && Line(s, p, st, o, maxDepth, rd).Err?
    ensures Lines(s, p, st, o, maxDepth, rd) == Err(Line(s, p, st, o, maxDepth, rd).error)
  {
  }

  /** A document that starts with a statement is parsed from its first character. */
  lemma ParseFrom(s: string, o: Options, maxDepth: nat, rd: Reading)
    requires |s| > 0 && StartsStatement(s[0])
    ensures Parse(s, o, maxDepth, rd) == Lines(s, 0, State(Root(), []), o, maxDepth, rd)
  {
    assert SkipBlanks(s, 0, false) == 0;
  }

  /*** Key-value lines ***/

  predicate BareKeys(ks: seq<string>) {
    |ks| > 0 && forall i :: 0 <= i < |ks| ==> BareKey(ks[i])
  }

  /** The text `w` is written in `s` from offset `p` on. */
  predicate At(s: string, p: nat, w: string)
    decreases |w|
  {
    if |w| == 0 then p <= |s| else p < |s| && s[p] == w[0] && At(s, p + 1, w[1..])
  }

  lemma {:induction false} AtSlice(s: string, p: nat, w: string)
    requires At(s, p, w)
    ensures p + |w| <= |s| && s[p..p + |w|] == w
    decreases |w|
  {
    if |w| > 0 {
      AtSlice(s, p + 1, w[1..]);
      assert s[p..p + |w|] == [s[p]] + s[p + 1..p + |w|];
      assert w == [w[0]] + w[1..];
    }
  }

  lemma {:induction false} AtSplit(s: string, p: nat, a: string, b: string)
    requires At(s, p, a + b)
    ensures At(s, p, a) && At(s, p + |a|, b)
    decreases |a|
  {
    if |a| > 0 {
      assert (a + b)[0] == a[0];
      assert (a + b)[1..] == a[1..] + b;
      AtSplit(s, p + 1, a[1..], b);
    } else {
      assert a + b == b;
    }
  }

  /** A dotted key of bare parts written at `d` and closed by `end`. */
  lemma KeyTextAt(s: string, d: nat, ks: seq<string>, end: char, stale: bool)
    requires end == '=' || end == ']'
    requires BareKeys(ks) && At(s, d, JoinKey(ks) + [end])
    requires !CharIs(s, d + |JoinKey(ks)| + 1, ' ') && !CharIs(s, d + |JoinKey(ks)| + 1, '\t')
    ensures d < |s| && BareChar(s[d])
    ensures ParseKeyWith(s, d, end, stale) == Ok((ks, d + |JoinKey(ks)| + 1))
  {
    var w := JoinKey(ks);
    AtSplit(s, d, w, [end]);
    AtSlice(s, d, w);
    DottedChars(ks);
    assert s[d] == w[0] == ks[0][0];
    BareKeyAt(s, d, ks, end, stale);
  }

  /*** Headers ***/

  /** A table header whose key reads as `key` up to `ke`. */
  lemma TableHeaderOf(s: string, p: nat, st: State, key: seq<string>, ke: nat, rd: Reading)
    requires p < |s| && s[p] == '[' && !CharIs(s, p + 1, '[')
    requires ParseKeyWith(s, p + 1, ']', rd == AsWritten) == Ok((key, ke))
    ensures TableHeader(s, p, st, rd) == Declare(st, key, Explicit, p + 1, ke)
  {
  }

  /** An array header whose key reads as `key` up to `ke` and whose brackets close at `e`. */
  lemma ArrayHeaderOf(s: string, p: nat, st: State, key: seq<string>, ke: nat, e: nat, rd: Reading)
    requires p < |s| && s[p] == '[' && CharIs(s, p + 1, '[')
    requires ParseKeyWith(s, p + 2, ']', rd == AsWritten) == Ok((key, ke))
    requires HeaderEnd(s, ke, rd) == Ok(e)
    ensures ArrayHeader(s, p, st, rd) == Declare(st, key, Array, p + 2, e)
  {
  }

  /** `[` at `p` and `k1.k2…]` after it, followed by anything but a space or a tab: the key reads as `k1.k2…` and ends after the `]`. */
  lemma TableKeyAt(s: string, p: nat, ks: seq<string>, stale: bool)
    requires BareKeys(ks) && At(s, p, "[") && At(s, p + 1, JoinKey(ks) + "]")
    requires !CharIs(s, p + |JoinKey(ks)| + 2, ' ') && !CharIs(s, p + |JoinKey(ks)| + 2, '\t')
    ensures p < |s| && s[p] == '[' && !CharIs(s, p + 1, '[')
    ensures ParseKeyWith(s, p + 1, ']', stale) == Ok((ks, p + |JoinKey(ks)| + 2))
  {
    KeyTextAt(s, p + 1, ks, ']', stale);
  }

  /** `[[` at `p` and `k1.k2…]` after it, followed by anything but a space or a tab: the key reads as `k1.k2…` and ends after the first `]`. */
  lemma ArrayKeyAt(s: string, p: nat, ks: seq<string>, stale: bool)
    requires BareKeys(ks) && At(s, p, "[[") && At(s, p + 2, JoinKey(ks) + "]")
    requires !CharIs(s, p + |JoinKey(ks)| + 3, ' ') && !CharIs(s, p + |JoinKey(ks)| + 3, '\t')
    ensures ParseKeyWith(s, p + 2, ']', stale) == Ok((ks, p + |JoinKey(ks)| + 3))
  {
    KeyTextAt(s, p + 2, ks, ']', stale);
  }

  /** `[[k1.k2…]` at `p` opens an array header, and its key is followed by `]`. */
  lemma ArrayBrackets(s: string, p: nat, ks: seq<string>)
    requires |ks| > 0 && At(s, p, "[[") && At(s, p + 2, JoinKey(ks) + "]")
    ensures CharIs(s, p + 1, '[') && s[p] == '[' && CharIs(s, p + |JoinKey(ks)| + 2, ']')
  {
    AtSplit(s, p + 2, JoinKey(ks), "]");
  }

  /*** Small headers ***/

  /** A table declared by the first header of a document. */
  function FirstTable(k: string, kind: Kind): Tbl
    requires kind == Explicit || kind == Array
  {
    Root().(kids := [Entry(k, Fresh(kind))])
  }

  /** The key `a` written at `p` and closed by `]`. */
  lemma KeyA(s: string, p: nat, stale: bool)
    requires p + 1 < |s| && s[p] == 'a' && s[p + 1] == ']' && !CharIs(s, p + 2, ' ') && !CharIs(s, p + 2, '\t')
    ensures ParseKeyWith(s, p, ']', stale) == Ok((["a"], p + 2))
  {
    assert BareChar('a');
    assert JoinKey(["a"]) == "a";
    assert s[p..p + 1] == "a";
    BareKeyAt(s, p, ["a"], ']', stale);
  }

  /** The header `[a]`, whatever the state. */
  lemma TableHeaderA(st: State, rd: Reading)
    ensures TableHeader("[a]", 0, st, rd) == Declare(st, ["a"], Explicit, 1, 3)
  {
    KeyA("[a]", 1, rd == AsWritten);
  }

  /** The header `[[a]]`, whatever the state. */
  lemma ArrayHeaderA(st: State, rd: Reading)
    ensures ArrayHeader("[[a]]", 0, st, rd) == Declare(st, ["a"], Array, 2, 5)
  {
    KeyA("[[a]]", 2, rd == AsWritten);
    assert HeaderEnd("[[a]]", 4, rd) == Ok(5);
  }

  /** A first `[a]` declares the table `a`; a second one is refused at its key. */
  lemma TableTwice(kp: nat, e: nat)
    ensures Declare(State(Root(), []), ["a"], Explicit, kp, e) == Ok((State(FirstTable("a", Explicit), ["a"]), e))
    ensures Declare(State(FirstTable("a", Explicit), ["a"]), ["a"], Explicit, kp, e) == Fail(TableRedefinition, kp)
  {
  }

  /** A first `[[a]]` makes `a` an array of one table; a second one appends a second table. */
  lemma ArrayTwice(kp: nat, e: nat)
    ensures Declare(State(Root(), []), ["a"], Array, kp, e) == Ok((State(FirstTable("a", Array), ["a"]), e))
    ensures Declare(State(FirstTable("a", Array), ["a"]), ["a"], Array, kp, e)
      == Ok((State(TwoElements("a"), ["a"]), e))
  {
    SecondArrayElement("a");
  }

  /** `k` holding an array of two empty tables. */
  function TwoElements(k: string): Tbl {
    Root().(kids := [Entry(k, Arr([ArrayElement()], ArrayElement()))])
  }

  lemma SecondArrayElement(k: string)
    ensures Peek(FirstTable(k, Array), [k], Array) == Some(TwoElements(k))
  {
    var kids := [Entry(k, Arr([], ArrayElement()))];
    assert kids[0].key == k && kids[1..] == [];
    assert [] + [ArrayElement()] == [ArrayElement()];
    assert Put(kids, k, Arr([] + [ArrayElement()], ArrayElement())) == [Entry(k, Arr([ArrayElement()], ArrayElement()))];
  }

  /**
   * `[[a]x`, as written: the header is accepted, `a` becomes one more
   * array element and parsing goes on after the `x`.
   */
  lemma UnclosedArrayHeaderAccepted(st: State)
    ensures ArrayHeader("[[a]x", 0, st, AsWritten) == Declare(st, ["a"], Array, 2, 5)
  {
    KeyA("[[a]x", 2, true);
    assert HeaderEnd("[[a]x", 4, AsWritten) == Ok(5);
  }

  /** `[[a]x`, corrected: the missing `]` is reported where the `x` is. */
  lemma UnclosedArrayHeaderRefused(st: State)
    ensures ArrayHeader("[[a]x", 0, st, Corrected) == Fail(ExpectedTableEnd, 4)
  {
    KeyA("[[a]x", 2, false);
    assert HeaderEnd("[[a]x", 4, Corrected) == Fail(ExpectedTableEnd, 4);
  }

  /*** Small documents ***/

  /** `[a]` at `p`, not followed by a space or a tab, declares `a` from state `st`. */
  lemma TableLineA(s: string, p: nat, st: State, o: Options, maxDepth: nat, rd: Reading)
    requires p + 2 < |s| && s[p] == '[' && s[p + 1] == 'a' && s[p + 2] == ']'
    requires !CharIs(s, p + 3, '[') && !CharIs(s, p + 3, ' ') && !CharIs(s, p + 3, '\t')
    ensures Header(s, p, st, rd) == Declare(st, ["a"], Explicit, p + 1, p + 3)
  {
    KeyA(s, p + 1, rd == AsWritten);
    TableHeaderOf(s, p, st, ["a"], p + 3, rd);
  }

  /** `[[a]]` at `p`, not followed by a space or a tab, appends a table to `a` from state `st`. */
  lemma ArrayLineA(s: string, p: nat, st: State, o: Options, maxDepth: nat, rd: Reading)
    requires p + 4 < |s| && s[p] == '[' && s[p + 1] == '[' && s[p + 2] == 'a' && s[p + 3] == ']' && s[p + 4] == ']'
    ensures Header(s, p, st, rd) == Declare(st, ["a"], Array, p + 2, p + 5)
  {
    KeyA(s, p + 2, rd == AsWritten);
    assert HeaderEnd(s, p + 4, rd) == Ok(p + 5);
    ArrayHeaderOf(s, p, st, ["a"], p + 4, p + 5, rd);
  }

  /** The characters of `[a]`, a line break and `[a]`. */
  predicate TableTwiceText(s: string) {
    |s| == 7 && s[0] == '[' && s[1] == 'a' && s[2] == ']' && s[3] == '\n' && s[4] == '[' && s[5] == 'a' && s[6] == ']'
  }

  lemma TableTwiceFirst(s: string, o: Options, maxDepth: nat, rd: Reading)
    requires TableTwiceText(s)
    ensures Lines(s, 0, State(Root(), []), o, maxDepth, rd) == Lines(s, 4, State(FirstTable("a", Explicit), ["a"]), o, maxDepth, rd)
  {
    var st0 := State(Root(), []);
    TableLineA(s, 0, st0, o, maxDepth, rd);
    TableTwice(1, 3);
    HeaderLine(s, 0, st0, o, maxDepth, rd);
    LinesStep(s, 0, st0, o, maxDepth, rd, State(FirstTable("a", Explicit), ["a"]), 4);
  }

  lemma TableTwiceSecond(s: string, o: Options, maxDepth: nat, rd: Reading)
    requires TableTwiceText(s)
    ensures Lines(s, 4, State(FirstTable("a", Explicit), ["a"]), o, maxDepth, rd) == Fail(TableRedefinition, 5)
  {
    var st1 := State(FirstTable("a", Explicit), ["a"]);
    TableLineA(s, 4, st1, o, maxDepth, rd);
    TableTwice(5, 7);
    HeaderLineFails(s, 4, st1, o, maxDepth, rd);
    LinesFail(s, 4, st1, o, maxDepth, rd);
  }

  /** The document `[a]`, a line break and `[a]` again fails at the second key. */
  lemma TableTwiceDocument(s: string, o: Options, maxDepth: nat, rd: Reading)
    requires s == "[a]\n[a]"
    ensures Parse(s, o, maxDepth, rd) == Fail(TableRedefinition, 5)
  {
    assert TableTwiceText(s);
    ParseFrom(s, o, maxDepth, rd);
    TableTwiceFirst(s, o, maxDepth, rd);
    TableTwiceSecond(s, o, maxDepth, rd);
  }

  /** The characters of `[[a]]`, a line break and `[[a]]`. */
  predicate ArrayTwiceText(s: string) {
    && |s| == 11 && s[0] == '[' && s[1] == '[' && s[2] == 'a' && s[3] == ']' && s[4] == ']' && s[5] == '\n'
    && s[6] == '[' && s[7] == '[' && s[8] == 'a' && s[9] == ']' && s[10] == ']'
  }

  lemma ArrayTwiceFirst(s: string, o: Options, maxDepth: nat, rd: Reading)
    requires ArrayTwiceText(s)
    ensures Lines(s, 0, State(Root(), []), o, maxDepth, rd) == Lines(s, 6, State(FirstTable("a", Array), ["a"]), o, maxDepth, rd)
  {
    var st0 := State(Root(), []);
    ArrayLineA(s, 0, st0, o, maxDepth, rd);
    ArrayTwice(2, 5);
    HeaderLine(s, 0, st0, o, maxDepth, rd);
    LinesStep(s, 0, st0, o, maxDepth, rd, State(FirstTable("a", Array), ["a"]), 6);
  }

  lemma ArrayTwiceSecond(s: string, o: Options, maxDepth: nat, rd: Reading)
    requires ArrayTwiceText(s)
    ensures Lines(s, 6, State(FirstTable("a", Array), ["a"]), o, maxDepth, rd) == Ok(TwoElements("a"))
  {
    var st1 := State(FirstTable("a", Array), ["a"]);
    ArrayLineA(s, 6, st1, o, maxDepth, rd);
    ArrayTwice(8, 11);
    HeaderLine(s, 6, st1, o, maxDepth, rd);
    LinesStep(s, 6, st1, o, maxDepth, rd, State(TwoElements("a"), ["a"]), 11);
  }

  /** The document `[[a]]`, a line break and `[[a]]` again makes `a` an array of two tables. */
  lemma ArrayTwiceDocument(s: string, o: Options, maxDepth: nat, rd: Reading)
    requires s == "[[a]]\n[[a]]"
    ensures Parse(s, o, maxDepth, rd) == Ok(TwoElements("a"))
  {
    assert ArrayTwiceText(s);
    ParseFrom(s, o, maxDepth, rd);
    ArrayTwiceFirst(s, o, maxDepth, rd);
    ArrayTwiceSecond(s, o, maxDepth, rd);
  }

  lemma TrailingTextLine(s: string, o: Options, maxDepth: nat, rd: Reading)
    requires |s| == 4 && s[0] == '[' && s[1] == 'a' && s[2] == ']' && s[3] == 'x'
    ensures Lines(s, 0, State(Root(), []), o, maxDepth, rd) == Fail(ExpectedNewline, 3)
  {
    var st0 := State(Root(), []);
    TableLineA(s, 0, st0, o, maxDepth, rd);
    TableTwice(1, 3);
    assert SkipBlanks(s, 3, true) == 3;
    assert SkipVoid(s, 3, true, false) == Ok(3);
    LinesFail(s, 0, st0, o, maxDepth, rd);
  }

  /** The document `[a]x`: a header followed by more than blanks fails where the `x` is. */
  lemma TrailingTextDocument(s: string, o: Options, maxDepth: nat, rd: Reading)
    requires s == "[a]x"
    ensures Parse(s, o, maxDepth, rd) == Fail(ExpectedNewline, 3)
  {
    ParseFrom(s, o, maxDepth, rd);
    TrailingTextLine(s, o, maxDepth, rd);
  }
}
