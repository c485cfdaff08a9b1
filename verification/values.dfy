/**
 * The document tree the parser builds. The JavaScript parser keeps two parallel
 * trees: plain objects holding the values, and a shadow tree of table
 * states (a tag, a `defined` flag, and children). Here they are one tree:
 * a table node carries its tag and flag next to its entries, and a key
 * assigned a value is a `Leaf` (the state `{DOTTED, defined}` of `parse`).
 */
module Values {
  import opened Results

  /** How an RFC 3339 date-time was written; `text` is what the `Date` constructor receives. */
  datatype DateTime = DateTime(hasDate: bool, hasTime: bool, offset: Option<string>, text: string)

  /** A float is classified, not converted. */
  datatype FloatLit = Finite(text: string) | Infinity(negative: bool) | NotANumber

  /** The tag of a table state: how the table came to exist. */
  datatype Kind = Dotted | Explicit | Array | ArrayDotted

  datatype Value =
    | Bool(b: bool)
    | Integer(n: int, big: bool)     // `big`: a BigInt rather than a Number
    | Float(f: FloatLit)
    | Str(s: string)
    | Date(dt: DateTime)
    | List(items: seq<Value>)
    | Table(table: Tbl)              // an inline table

  /** A table: its state and its entries in insertion order. */
  datatype Tbl = Tbl(kind: Kind, defined: bool, kids: seq<Entry>)

  datatype Entry = Entry(key: string, node: Node)

  /**
   * What a key of a table holds: a value, a sub-table, or an array of
   * tables (never empty: `last` is where later paths lead).
   */
  datatype Node = Leaf(value: Value) | Sub(table: Tbl) | Arr(init: seq<Tbl>, last: Tbl)

  /** A fresh table that nothing has declared yet. */
  function EmptyTable(kind: Kind): Tbl {
    Tbl(kind, false, [])
  }

  /** The element `[[x]]` appends to an array of tables. */
  function ArrayElement(): Tbl {
    Tbl(Explicit, true, [])
  }

  /** The keys of a table, in insertion order (`Object.keys`). */
  function Keys(kids: seq<Entry>): (r: seq<string>)
    ensures |r| == |kids|
    ensures forall i {:trigger r[i]} :: 0 <= i < |kids| ==> r[i] == kids[i].key
  {
    if kids == [] then [] else [kids[0].key] + Keys(kids[1..])
  }

  /** `Object.hasOwn(t, k) ? t[k] : undefined` */
  function Lookup(kids: seq<Entry>, k: string): (r: Option<Node>)
    ensures r.None? <==> k !in Keys(kids)
    ensures r.Some? ==> Entry(k, r.value) in kids
  {
    if kids == [] then None
    else if kids[0].key == k then Some(kids[0].node)
    else Lookup(kids[1..], k)
  }

  /** `t[k] = n`: replaces the entry for `k`, or appends one. */
  function Put(kids: seq<Entry>, k: string, n: Node): (r: seq<Entry>)
    ensures Lookup(r, k) == Some(n)
    ensures forall k' :: k' != k ==> Lookup(r, k') == Lookup(kids, k')
    ensures Keys(r) == if k in Keys(kids) then Keys(kids) else Keys(kids) + [k]
  {
    if kids == [] then [Entry(k, n)]
    else if kids[0].key == k then
      PutHead(kids, k, n);
      [Entry(k, n)] + kids[1..]
    else
      var rest := Put(kids[1..], k, n);
      PutTail(kids, k, n, rest);
      [kids[0]] + rest
  }

  lemma PutHead(kids: seq<Entry>, k: string, n: Node)
    requires kids != [] && kids[0].key == k
    ensures var r := [Entry(k, n)] + kids[1..];
      && Lookup(r, k) == Some(n)
      && (forall k' :: k' != k ==> Lookup(r, k') == Lookup(kids, k'))
      && Keys(r) == Keys(kids)
  {
    var r := [Entry(k, n)] + kids[1..];
    assert r[1..] == kids[1..];
  }

  lemma PutTail(kids: seq<Entry>, k: string, n: Node, rest: seq<Entry>)
    requires kids != [] && kids[0].key != k
    requires Lookup(rest, k) == Some(n)
    requires forall k' :: k' != k ==> Lookup(rest, k') == Lookup(kids[1..], k')
    requires Keys(rest) == if k in Keys(kids[1..]) then Keys(kids[1..]) else Keys(kids[1..]) + [k]
    ensures var r := [kids[0]] + rest;
      && Lookup(r, k) == Some(n)
      && (forall k' :: k' != k ==> Lookup(r, k') == Lookup(kids, k'))
      && Keys(r) == if k in Keys(kids) then Keys(kids) else Keys(kids) + [k]
  {
    var r := [kids[0]] + rest;
    assert r[1..] == rest;
    assert Keys(r) == [kids[0].key] + Keys(rest);
    assert Keys(kids) == [kids[0].key] + Keys(kids[1..]);
  }

  /** No key appears twice among the entries of a table. */
  predicate KeysUnique(kids: seq<Entry>) {
    kids == [] || (kids[0].key !in Keys(kids[1..]) && KeysUnique(kids[1..]))
  }

  lemma {:induction false} PutKeepsKeysUnique(kids: seq<Entry>, k: string, n: Node)
    requires KeysUnique(kids)
    ensures KeysUnique(Put(kids, k, n))
  {
    if kids != [] && kids[0].key != k {
      PutKeepsKeysUnique(kids[1..], k, n);
      assert Put(kids, k, n)[1..] == Put(kids[1..], k, n);
    }
  }

  /** The entries after `t[k] = n` are the earlier ones, with `k`'s replaced. */
  lemma {:induction false} PutEntries(kids: seq<Entry>, k: string, n: Node, e: Entry)
    requires e in Put(kids, k, n)
    ensures e in kids || e == Entry(k, n)
  {
    if kids != [] && kids[0].key != k && e != kids[0] {
      assert Put(kids, k, n) == [kids[0]] + Put(kids[1..], k, n);
      PutEntries(kids[1..], k, n, e);
    }
  }

  /**
   * No table anywhere in the tree names a key twice (the tables of a
   * document are JavaScript objects). Values are not looked into.
   */
  predicate UniqueKeys(t: Tbl)
    decreases t
  {
    && KeysUnique(t.kids)
    && forall e :: e in t.kids ==> NodeUniqueKeys(e.node)
  }

  predicate NodeUniqueKeys(n: Node)
    decreases n
  {
    match n
    case Leaf(_) => true
    case Sub(c) => UniqueKeys(c)
    case Arr(init, last) => (forall c :: c in init ==> UniqueKeys(c)) && UniqueKeys(last)
  }

  /** `t[k] = n` keeps every table's keys unique. */
  lemma PutUniqueKeys(t: Tbl, k: string, n: Node)
    requires UniqueKeys(t) && NodeUniqueKeys(n)
    ensures UniqueKeys(t.(kids := Put(t.kids, k, n)))
  {
    PutKeepsKeysUnique(t.kids, k, n);
    forall e | e in Put(t.kids, k, n)
      ensures NodeUniqueKeys(e.node)
    {
      PutEntries(t.kids, k, n, e);
    }
  }

  /*** Nesting ***/

  /**
   * `v` nests within `d` levels: reading it needs `d` to stay positive
   * through every array and every value of an inline table it holds. The
   * tables a dotted key creates inside an inline table cost no level.
   */
  ghost predicate FitsDepth(v: Value, d: int)
    decreases v
  {
    && d > 0
    && match v
       case List(items) => forall x :: x in items ==> FitsDepth(x, d - 1)
       case Table(t) => TblFits(t, d)
       case _ => true
  }

  ghost predicate TblFits(t: Tbl, d: int)
    decreases t
  {
    d > 0 && forall e :: e in t.kids ==> NodeFits(e.node, d)
  }

  ghost predicate NodeFits(n: Node, d: int)
    decreases n
  {
    match n
    case Leaf(v) => FitsDepth(v, d - 1)
    case Sub(c) => TblFits(c, d)
    case Arr(init, last) => (forall c :: c in init ==> TblFits(c, d)) && TblFits(last, d)
  }

  /** `t[k] = n` keeps a table within `d` levels when `n` fits there. */
  lemma PutFits(t: Tbl, k: string, n: Node, d: int)
    requires TblFits(t, d) && NodeFits(n, d)
    ensures TblFits(t.(kids := Put(t.kids, k, n)), d)
  {
    forall e | e in Put(t.kids, k, n)
      ensures NodeFits(e.node, d)
    {
      PutEntries(t.kids, k, n, e);
    }
  }
}
