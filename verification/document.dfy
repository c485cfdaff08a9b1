/**
 * `parse`: the document driver. After the leading blank lines and comments,
 * each statement is either a header (`[t]` or `[[t]]`), which makes its
 * table the current one, or a key-value line, which lands in the current
 * table; each must be followed by the end of its line.
 */
module Document {
  import opened Results
  import opened Text
  import opened Cursor
  import opened Values
  import opened Tables
  import opened KeyParser
  import opened Extract

  /**
   * What the driver carries between statements: the whole tree and the path
   * of the table the last header declared (where the JavaScript parser keeps
   * the table object itself, the path leads to it: only headers move it, and a
   * key-value line never changes what a path leads to).
   */
  datatype State = State(root: Tbl, cur: seq<string>)

  /** The current table exists. */
  predicate Valid(st: State) {
    Get(st.root, st.cur).Some?
  }

  /** The document's top-level table before anything is declared. */
  function Root(): (r: Tbl)
    ensures Get(r, []) == Some(r) && r.kids == []
  {
    EmptyTable(Explicit)
  }

  /**
   * Where an array header goes on after its key: `parse` checks the
   * character just before that point for `]` and steps over one more
   * character (`AsWritten`); that character is always the first `]` unless
   * spaces follow it, so the second `]` is never looked at. The corrected
   * reading also requires the character stepped over to be `]`.
   */
  function HeaderEnd(s: string, e: nat, rd: Reading): (r: Result<nat>)
    ensures r.Ok? ==> r.value == e + 1
    ensures r.Err? ==> r.error.kind == ExpectedTableEnd
    ensures rd == Corrected && r.Ok? ==> CharIs(s, e - 1, ']') && CharIs(s, e, ']')
  {
    if !CharIs(s, e - 1, ']') then Fail(ExpectedTableEnd, e - 1)
    else if rd == Corrected && !CharIs(s, e, ']') then Fail(ExpectedTableEnd, e)
    else Ok(e + 1)
  }

  /**
   * A header line starting at `p`: the key is declared from the top-level
   * table (an explicit table, or one more element of an array of tables)
   * and becomes the current table.
   */
  function Header(s: string, p: nat, st: State, rd: Reading): (r: Result<(State, nat)>)
    requires p < |s| && s[p] == '['
    ensures r.Ok? ==> p < r.value.1 <= |s| + 1
    ensures r.Ok? ==> Valid(r.value.0)
    ensures r.Ok? && UniqueKeys(st.root) ==> UniqueKeys(r.value.0.root)
    ensures r.Ok? ==> forall d :: TblFits(st.root, d) ==> TblFits(r.value.0.root, d)
    ensures r.Ok? ==> Keeps(st.root, r.value.0.root)
  {
    if CharIs(s, p + 1, '[') then ArrayHeader(s, p, st, rd) else TableHeader(s, p, st, rd)
  }

  /** `[t]` */
  function TableHeader(s: string, p: nat, st: State, rd: Reading): (r: Result<(State, nat)>)
    requires p < |s| && s[p] == '[' && !CharIs(s, p + 1, '[')
    ensures r.Ok? ==> p + 1 < r.value.1 <= |s|
    ensures r.Ok? ==> Valid(r.value.0)
    ensures r.Ok? && UniqueKeys(st.root) ==> UniqueKeys(r.value.0.root)
    ensures r.Ok? ==> forall d :: TblFits(st.root, d) ==> TblFits(r.value.0.root, d)
    ensures r.Ok? ==> Keeps(st.root, r.value.0.root)
  {
    var ke :- ParseKeyWith(s, p + 1, ']', rd == AsWritten);
    Declare(st, ke.0, Explicit, p + 1, ke.1)
  }

  /** `[[t]]` */
  function ArrayHeader(s: string, p: nat, st: State, rd: Reading): (r: Result<(State, nat)>)
    requires CharIs(s, p + 1, '[') && s[p] == '['
    ensures r.Ok? ==> p + 2 < r.value.1 <= |s| + 1
    ensures r.Ok? ==> Valid(r.value.0)
    ensures r.Ok? && UniqueKeys(st.root) ==> UniqueKeys(r.value.0.root)
    ensures r.Ok? ==> forall d :: TblFits(st.root, d) ==> TblFits(r.value.0.root, d)
    ensures r.Ok? ==> Keeps(st.root, r.value.0.root)
  {
    var ke :- ParseKeyWith(s, p + 2, ']', rd == AsWritten);
    var e :- HeaderEnd(s, ke.1, rd);
    Declare(st, ke.0, Array, p + 2, e)
  }

  /**
   * What a header whose key reads as `key` and which ends at `e` does:
   * refused when `peekTable` refuses the key from the top-level table
   * (reported at `kp`, where the key starts); otherwise the table is
   * declared and becomes the current one.
   */
  function Declare(st: State, key: seq<string>, kind: Kind, kp: nat, e: nat): (r: Result<(State, nat)>)
    requires |key| > 0 && (kind == Explicit || kind == Array)
    ensures r.Ok? <==> Declarable(st.root, key, kind)
    ensures r.Ok? ==> r.value.1 == e && r.value.0.cur == key && Valid(r.value.0)
    ensures r.Ok? && UniqueKeys(st.root) ==> UniqueKeys(r.value.0.root)
    ensures r.Ok? ==> forall d :: TblFits(st.root, d) ==> TblFits(r.value.0.root, d)
    ensures r.Err? ==> r == Fail(TableRedefinition, kp)
    // `[t]` defines a table at the key, keeping what was already below it.
    ensures r.Ok? && kind == Explicit ==> DefinedTable(NodeAt(st.root, key), NodeAt(r.value.0.root, key))
    // `[[t]]` appends one fresh table to the array at the key.
    ensures r.Ok? && kind == Array ==> NodeAt(r.value.0.root, key) == Some(Appended(NodeAt(st.root, key)))
    // Nothing that parts from the key changes, and the top level is kept.
    ensures r.Ok? ==> forall q :: |q| > 0 && Apart(q, key) ==> NodeAt(r.value.0.root, q) == NodeAt(st.root, q)
    ensures r.Ok? ==> Keeps(st.root, r.value.0.root)
  {
    PeekSucceeds(st.root, key, kind);
    match Peek(st.root, key, kind)
    case None => Fail(TableRedefinition, kp)
    case Some(root') =>
      HeaderDeclares(st.root, key, kind);
      Ok((State(root', key), e))
  }

  /**
   * After a header is declared, its path leads to a table, keys stay
   * unique and values nest no deeper than before.
   */
  lemma HeaderDeclares(t: Tbl, key: seq<string>, kind: Kind)
    requires |key| > 0 && (kind == Explicit || kind == Array) && Peek(t, key, kind).Some?
    ensures Get(Peek(t, key, kind).value, key).Some?
    ensures UniqueKeys(t) ==> UniqueKeys(Peek(t, key, kind).value)
    ensures forall d :: TblFits(t, d) ==> TblFits(Peek(t, key, kind).value, d)
    ensures kind == Explicit ==> DefinedTable(NodeAt(t, key), NodeAt(Peek(t, key, kind).value, key))
    ensures kind == Array ==> NodeAt(Peek(t, key, kind).value, key) == Some(Appended(NodeAt(t, key)))
    ensures forall q :: |q| > 0 && Apart(q, key) ==> NodeAt(Peek(t, key, kind).value, q) == NodeAt(t, q)
    ensures Keeps(t, Peek(t, key, kind).value)
  {
    if kind == Array { PeekArrayEffect(t, key); } else { PeekExplicitEffect(t, key); }
    PeekKeeps(t, key, kind);
    forall q | |q| > 0 && Apart(q, key)
      ensures NodeAt(Peek(t, key, kind).value, q) == NodeAt(t, q)
    {
      PeekFrame(t, key, kind, q);
    }
    if UniqueKeys(t) { PeekUniqueKeys(t, key, kind); }
    forall d | TblFits(t, d)
      ensures TblFits(Peek(t, key, kind).value, d)
    {
      PeekFits(t, key, kind, d);
    }
  }

  /**
   * A key-value line starting at `p`: the key path is checked against the
   * current table before the value is read, and the value then lands at
   * the end of the path.
   */
  function Assignment(s: string, p: nat, st: State, o: Options, maxDepth: nat, rd: Reading): (r: Result<(State, nat)>)
    requires p < |s| && s[p] != '['
    ensures r.Ok? ==> p < r.value.1 <= |s| && r.value.0.cur == st.cur
    ensures r.Ok? ==> Valid(r.value.0)
    ensures r.Ok? && UniqueKeys(st.root) ==> UniqueKeys(r.value.0.root)
    ensures r.Ok? && TblFits(st.root, maxDepth + 1) ==> TblFits(r.value.0.root, maxDepth + 1)
    ensures r.Ok? ==> Keeps(st.root, r.value.0.root)
  {
    var ke :- ParseKeyWith(s, p, '=', rd == AsWritten);
    Assign(s, p, st, ke.0, ke.1, o, maxDepth, rd)
  }

  /**
   * What a key-value line at `p` whose key reads as `key` up to `ke` does:
   * a key `peekTable` refuses in the current table is reported at `p`;
   * otherwise the value is read from `ke` and lands at the key below the
   * current table.
   */
  function Assign(s: string, p: nat, st: State, key: seq<string>, ke: nat, o: Options, maxDepth: nat, rd: Reading): (r: Result<(State, nat)>)
    requires |key| > 0 && p < ke <= |s|
    ensures PeekAt(st.root, st.cur, key, Dotted).None? ==> r == Fail(TableRedefinition, p)
    ensures PeekAt(st.root, st.cur, key, Dotted).Some? && r.Err? ==> ExtractValue(s, ke, None, maxDepth, o, rd).Err?
    ensures r.Ok? ==> ke < r.value.1 <= |s| && r.value.0.cur == st.cur
    ensures r.Ok? ==> Valid(r.value.0)
    ensures r.Ok? && UniqueKeys(st.root) ==> UniqueKeys(r.value.0.root)
    ensures r.Ok? && TblFits(st.root, maxDepth + 1) ==> TblFits(r.value.0.root, maxDepth + 1)
    ensures r.Ok? <==> PeekAt(st.root, st.cur, key, Dotted).Some? && ExtractValue(s, ke, None, maxDepth, o, rd).Ok?
    ensures PeekAt(st.root, st.cur, key, Dotted).Some? && ExtractValue(s, ke, None, maxDepth, o, rd).Err? ==>
      r == Err(ExtractValue(s, ke, None, maxDepth, o, rd).error)
    // `p[1][p[0]] = v[0]`: the value read lands at the key below the current table.
    ensures r.Ok? ==> var ve := ExtractValue(s, ke, None, maxDepth, o, rd);
      && ve.Ok? && r.value.1 == ve.value.1
      && Get(r.value.0.root, st.cur).Some?
      && NodeAt(Get(r.value.0.root, st.cur).value, key) == Some(Leaf(ve.value.0))
    // Nothing that parts from the key changes, and the top level is kept.
    ensures r.Ok? ==> forall q :: |q| > 0 && Apart(q, st.cur + key) ==> NodeAt(r.value.0.root, q) == NodeAt(st.root, q)
    ensures r.Ok? ==> Keeps(st.root, r.value.0.root)
  {
    match PeekAt(st.root, st.cur, key, Dotted)
    case None => Fail(TableRedefinition, p)
    case Some(root') =>
      var ve :- ExtractValue(s, ke, None, maxDepth, o, rd);
      AssignKeepsCurrent(st, key, ve.0);
      AssignFits(st, key, ve.0, maxDepth + 1);
      AssignFrame(st, key, ve.0);
      Ok((State(AssignLeaf(root', st.cur + key, ve.0), st.cur), ve.1))
  }

  /**
   * A key-value line changes nothing at a path that parts from its key, and
   * keeps the top level of the tree.
   */
  lemma AssignFrame(st: State, key: seq<string>, v: Value)
    requires |key| > 0 && PeekAt(st.root, st.cur, key, Dotted).Some?
    ensures var t := AssignLeaf(PeekAt(st.root, st.cur, key, Dotted).value, st.cur + key, v);
      && (forall q :: |q| > 0 && Apart(q, st.cur + key) ==> NodeAt(t, q) == NodeAt(st.root, q))
      && Keeps(st.root, t)
  {
    var root' := PeekAt(st.root, st.cur, key, Dotted).value;
    forall q | |q| > 0 && Apart(q, st.cur + key)
      ensures NodeAt(AssignLeaf(root', st.cur + key, v), q) == NodeAt(st.root, q)
    {
      AssignLeafFrame(root', st.cur + key, v, q);
      PeekAtFrame(st.root, st.cur, key, Dotted, q);
    }
    PeekAtKeeps(st.root, st.cur, key, Dotted);
    if |st.cur + key| == 1 {
      var c := Get(st.root, st.cur).value;
      assert st.cur == [] && root' == Peek(c, key, Dotted).value;
      PeekDottedEffect(c, key);
      assert NodeAt(root', key) == Lookup(root'.kids, key[0]);
    }
    AssignLeafKeeps(root', st.cur + key, v);
    KeepsTrans(st.root, root', AssignLeaf(root', st.cur + key, v));
  }

  /**
   * After a successful key-value peek in the current table, the value lands
   * at the key below the current table, the current table stays, and keys
   * stay unique.
   */
  lemma AssignKeepsCurrent(st: State, key: seq<string>, v: Value)
    requires |key| > 0 && PeekAt(st.root, st.cur, key, Dotted).Some?
    ensures var t := AssignLeaf(PeekAt(st.root, st.cur, key, Dotted).value, st.cur + key, v);
      && Get(t, st.cur).Some?
      && NodeAt(Get(t, st.cur).value, key) == Some(Leaf(v))
      && (UniqueKeys(st.root) ==> UniqueKeys(t))
  {
    var c := Get(st.root, st.cur).value;
    var c' := Peek(c, key, Dotted).value;
    var root' := Set(st.root, st.cur, c');
    var n := |key|;
    var parent := key[..n - 1];
    PeekDottedEffect(c, key);
    GetSet(st.root, st.cur, c');
    GetAppend(root', st.cur, parent);
    assert (st.cur + key)[..|st.cur + key| - 1] == st.cur + parent;
    assert (st.cur + key)[|st.cur + key| - 1] == key[n - 1];
    var p := Get(root', st.cur + parent).value;
    var t := AssignLeaf(root', st.cur + key, v);
    var p' := p.(kids := Put(p.kids, key[n - 1], Leaf(v)));
    assert t == Set(root', st.cur + parent, p');
    SetKeepsPrefix(root', st.cur, parent, p');
    GetSet(root', st.cur + parent, p');
    GetAppend(t, st.cur, parent);
    if UniqueKeys(st.root) {
      PeekAtUniqueKeys(st.root, st.cur, key, Dotted);
      AssignLeafUniqueKeys(root', st.cur + key, v);
    }
  }

  /** A value that fits one level down keeps every value of the tree within `d` levels. */
  lemma AssignFits(st: State, key: seq<string>, v: Value, d: int)
    requires |key| > 0 && PeekAt(st.root, st.cur, key, Dotted).Some?
    ensures TblFits(st.root, d) && FitsDepth(v, d - 1) ==>
      TblFits(AssignLeaf(PeekAt(st.root, st.cur, key, Dotted).value, st.cur + key, v), d)
  {
    if TblFits(st.root, d) && FitsDepth(v, d - 1) {
      PeekAtFits(st.root, st.cur, key, Dotted, d);
      AssignLeafFits(PeekAt(st.root, st.cur, key, Dotted).value, st.cur + key, v, d);
    }
  }

  /** The header or key-value line starting at `p`. */
  function Statement(s: string, p: nat, st: State, o: Options, maxDepth: nat, rd: Reading): (r: Result<(State, nat)>)
    requires p < |s|
    ensures r.Ok? ==> p < r.value.1 <= |s| + 1
    ensures r.Ok? ==> Valid(r.value.0)
    ensures r.Ok? && UniqueKeys(st.root) ==> UniqueKeys(r.value.0.root)
    ensures r.Ok? && TblFits(st.root, maxDepth + 1) ==> TblFits(r.value.0.root, maxDepth + 1)
    ensures r.Ok? ==> Keeps(st.root, r.value.0.root)
  {
    if s[p] == '[' then Header(s, p, st, rd) else Assignment(s, p, st, o, maxDepth, rd)
  }

  /**
   * One statement starting at `p`, then the rest of its line: spaces, tabs
   * and a comment may follow, and then only a line break or the end of the
   * document. Parsing goes on after the blank lines and comments that come
   * next.
   */
  function Line(s: string, p: nat, st: State, o: Options, maxDepth: nat, rd: Reading): (r: Result<(State, nat)>)
    requires p < |s|
    ensures r.Ok? ==> p < r.value.1
    ensures r.Ok? ==> Valid(r.value.0)
    ensures r.Ok? && UniqueKeys(st.root) ==> UniqueKeys(r.value.0.root)
    ensures r.Ok? && TblFits(st.root, maxDepth + 1) ==> TblFits(r.value.0.root, maxDepth + 1)
    ensures r.Ok? ==> r.value.1 >= |s| || StopsAt(s, r.value.1, false, false)
    ensures var next := Statement(s, p, st, o, maxDepth, rd);
      var q := if next.Ok? then SkipVoid(s, next.value.1, true, false) else Ok(0);
      next.Ok? && q.Ok? && q.value < |s| && s[q.value] != '\n' && s[q.value] != '\r' ==> r == Fail(ExpectedNewline, q.value)
    // The line's tree is its statement's.
    ensures r.Ok? ==> var next := Statement(s, p, st, o, maxDepth, rd); next.Ok? && r.value.0 == next.value.0
    ensures r.Ok? ==> Keeps(st.root, r.value.0.root)
  {
    var next :- Statement(s, p, st, o, maxDepth, rd);
    var q :- SkipVoid(s, next.1, true, false);
    if q < |s| && s[q] != '\n' && s[q] != '\r' then Fail(ExpectedNewline, q)
    else
      var q' :- SkipVoid(s, q, false, false);
      Ok((next.0, q'))
  }

  /** The statements from `p` to the end of the document. */
  function Lines(s: string, p: nat, st: State, o: Options, maxDepth: nat, rd: Reading): (r: Result<Tbl>)
    ensures p >= |s| ==> r == Ok(st.root)
    ensures r.Ok? && UniqueKeys(st.root) ==> UniqueKeys(r.value)
    ensures r.Ok? && TblFits(st.root, maxDepth + 1) ==> TblFits(r.value, maxDepth + 1)
    // Each statement keeps the top level built so far: keys in their order, and values.
    ensures r.Ok? ==> Keeps(st.root, r.value)
    decreases |s| - p
  {
    if p >= |s| then Ok(st.root)
    else
      var next :- Line(s, p, st, o, maxDepth, rd);
      var rest := Lines(s, next.1, next.0, o, maxDepth, rd);
      if rest.Ok? then KeepsTrans(st.root, next.0.root, rest.value); rest else rest
  }

  /**
   * `parse(toml, { maxDepth, integersAsBigInt })`: the document's top-level
   * table, in which no table names a key twice. A document of blank lines
   * and comments only is the empty table.
   */
  function Parse(s: string, o: Options, maxDepth: nat, rd: Reading): (r: Result<Tbl>)
    ensures SkipVoid(s, 0, false, false) == Ok(|s|) ==> r == Ok(Root())
    ensures r.Ok? ==> UniqueKeys(r.value)
    ensures r.Ok? ==> TblFits(r.value, maxDepth + 1)
    // The result keeps what the first statement put at the top level.
    ensures var p := SkipVoid(s, 0, false, false);
      r.Ok? && p.Ok? && p.value < |s| ==>
        var first := Statement(s, p.value, State(Root(), []), o, maxDepth, rd);
        first.Ok? && Keeps(first.value.0.root, r.value)
  {
    var p :- SkipVoid(s, 0, false, false);
    Lines(s, p, State(Root(), []), o, maxDepth, rd)
  }

  /** `parse`'s default for `maxDepth`. */
  const DefaultMaxDepth: nat := 1000

  /**
   * `parse(toml)` with the default `maxDepth`: keys stay unique, and every
   * value in the document fits within 1000 levels (the tree fits in 1001).
   */
  function ParseDefault(s: string, o: Options, rd: Reading): (r: Result<Tbl>)
    ensures r.Ok? ==> UniqueKeys(r.value)
    ensures r.Ok? ==> TblFits(r.value, 1001)
    ensures var p := SkipVoid(s, 0, false, false);
      r.Ok? && p.Ok? && p.value < |s| ==>
        var first := Statement(s, p.value, State(Root(), []), o, DefaultMaxDepth, rd);
        first.Ok? && Keeps(first.value.0.root, r.value)
  {
    Parse(s, o, DefaultMaxDepth, rd)
  }

  /**
   * When the document starts with a key-value line for a one-part key, a
   * successful parse holds the value of that line at that key: no later
   * statement may replace it.
   */
  lemma FirstValueKept(s: string, o: Options, maxDepth: nat, rd: Reading, p: nat, k: string)
    requires SkipVoid(s, 0, false, false) == Ok(p) && p < |s| && s[p] != '['
    requires var ke := ParseKeyWith(s, p, '=', rd == AsWritten); ke.Ok? && ke.value.0 == [k]
    ensures var ke := ParseKeyWith(s, p, '=', rd == AsWritten).value;
      var ve := ExtractValue(s, ke.1, None, maxDepth, o, rd);
      var r := Parse(s, o, maxDepth, rd);
      r.Ok? ==> ve.Ok? && Lookup(r.value.kids, k) == Some(Leaf(ve.value.0))
  {
    var r := Parse(s, o, maxDepth, rd);
    if r.Ok? {
      hide Parse, Lines;
      var st := State(Root(), []);
      var ke := ParseKeyWith(s, p, '=', rd == AsWritten).value;
      var first := Statement(s, p, st, o, maxDepth, rd);
      assert first == Assign(s, p, st, [k], ke.1, o, maxDepth, rd);
      var t := first.value.0.root;
      assert Get(t, []) == Some(t);
      assert NodeAt(t, [k]) == Lookup(t.kids, k);
      assert LeafAt(t, k);
    }
  }
}
