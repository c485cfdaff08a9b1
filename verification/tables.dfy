/**
 * `peekTable`: decides whether a key-value line, a `[table]` header or an
 * `[[array]]` header may declare the key path it names, and returns the
 * tree with the path created. A `None` result is the `null` of `peekTable`,
 * which the driver reports as a redefinition.
 */
module Tables {
  import opened Results
  import opened Values

  /*** Paths ***/

  /** The table a path leads to; an array of tables leads to its last element. */
  function Get(t: Tbl, path: seq<string>): Option<Tbl>
    decreases |path|
  {
    if path == [] then Some(t)
    else
      match Lookup(t.kids, path[0])
      case Some(Sub(c)) => Get(c, path[1..])
      case Some(Arr(_, last)) => Get(last, path[1..])
      case _ => None
  }

  /** Replaces the table a path leads to (no change when there is none). */
  function Set(t: Tbl, path: seq<string>, c: Tbl): Tbl
    decreases |path|
  {
    if path == [] then c
    else
      match Lookup(t.kids, path[0])
      case Some(Sub(x)) => t.(kids := Put(t.kids, path[0], Sub(Set(x, path[1..], c))))
      case Some(Arr(init, last)) => t.(kids := Put(t.kids, path[0], Arr(init, Set(last, path[1..], c))))
      case _ => t
  }

  /** What the last key of a non-empty path holds. */
  function NodeAt(t: Tbl, path: seq<string>): Option<Node>
    requires |path| > 0
  {
    match Get(t, path[..|path| - 1])
    case None => None
    case Some(p) => Lookup(p.kids, path[|path| - 1])
  }

  /** Setting a table and reading it back gives it; the path stays valid. */
  lemma {:induction false} GetSet(t: Tbl, path: seq<string>, c: Tbl)
    requires Get(t, path).Some?
    ensures Get(Set(t, path, c), path) == Some(c)
    decreases |path|
  {
    if path != [] {
      match Lookup(t.kids, path[0])
      case Some(Sub(x)) => GetSet(x, path[1..], c);
      case Some(Arr(init, last)) => GetSet(last, path[1..], c);
    }
  }

  /** Setting a table at a path leaves the keys beside the path's first key alone. */
  lemma SetFrame(t: Tbl, path: seq<string>, c: Tbl, k: string)
    requires path != [] && k != path[0]
    ensures Lookup(Set(t, path, c).kids, k) == Lookup(t.kids, k)
  {
  }

  /** A path read in two halves: the table the first half leads to, then the second half from there. */
  lemma {:induction false} GetAppend(t: Tbl, a: seq<string>, b: seq<string>)
    ensures Get(t, a + b) == match Get(t, a) case None => None case Some(x) => Get(x, b)
    decreases |a|
  {
    if a != [] {
      assert (a + b)[0] == a[0] && (a + b)[1..] == a[1..] + b;
      match Lookup(t.kids, a[0])
      case Some(Sub(x)) => GetAppend(x, a[1..], b);
      case Some(Arr(_, last)) => GetAppend(last, a[1..], b);
      case _ =>
    } else {
      assert a + b == b;
    }
  }

  /** Replacing a table deeper down leaves every prefix of its path in place. */
  lemma {:induction false} SetKeepsPrefix(t: Tbl, a: seq<string>, b: seq<string>, c: Tbl)
    requires Get(t, a + b).Some?
    ensures Get(Set(t, a + b, c), a).Some?
    decreases |a|
  {
    if a != [] {
      assert (a + b)[0] == a[0] && (a + b)[1..] == a[1..] + b;
      match Lookup(t.kids, a[0])
      case Some(Sub(x)) => SetKeepsPrefix(x, a[1..], b, c);
      case Some(Arr(_, last)) => SetKeepsPrefix(last, a[1..], b, c);
    }
  }

  /** A path through a fresh table leads nowhere. */
  lemma GetEmpty(kind: Kind, path: seq<string>)
    requires path != []
    ensures Get(EmptyTable(kind), path) == None
  {
  }

  /** How a path of two or more keys reads through the node of its first key. */
  lemma NodeAtCons(t: Tbl, key: seq<string>)
    requires |key| >= 2
    ensures NodeAt(t, key) ==
      match Lookup(t.kids, key[0])
      case Some(Sub(c)) => NodeAt(c, key[1..])
      case Some(Arr(_, last)) => NodeAt(last, key[1..])
      case _ => None
  {
    var n := |key|;
    assert key[..n - 1][0] == key[0];
    assert key[..n - 1][1..] == key[1..][..n - 2];
  }

  /*** peekTable ***/

  /**
   * The node a header creates for a key it declares: `[t]` an explicitly
   * defined table, `[[t]]` an array holding one fresh table.
   */
  function Fresh(kind: Kind): Node
    requires kind == Explicit || kind == Array
  {
    if kind == Explicit then Sub(Tbl(Explicit, true, [])) else Arr([], ArrayElement())
  }

  /**
   * `peekTable(key, t, m, kind)` on the table `t`. A key-value line
   * (`Dotted`) gets back the tree with the intermediate tables created and
   * the final key still free, to be assigned by `AssignLeaf`; a header
   * gets back the tree with the final key declared.
   */
  function Peek(t: Tbl, key: seq<string>, kind: Kind): (r: Option<Tbl>)
    requires |key| > 0 && kind != ArrayDotted
    ensures r.Some? ==> r.value.kind == t.kind && r.value.defined == t.defined
    ensures r.Some? ==> forall k :: k != key[0] ==> Lookup(r.value.kids, k) == Lookup(t.kids, k)
    decreases |key|
  {
    var k := key[0];
    var node := Lookup(t.kids, k);
    if node.Some? && node.value.Leaf? then None
    else if |key| == 1 then
      match node
      case None => if kind == Dotted then Some(t) else Some(t.(kids := Put(t.kids, k, Fresh(kind))))
      case Some(Sub(c)) =>
        if kind == Explicit && (c.kind == Explicit || c.kind == ArrayDotted) && !c.defined then
          Some(t.(kids := Put(t.kids, k, Sub(c.(defined := true)))))
        else None
      case Some(Arr(init, last)) =>
        if kind == Array then Some(t.(kids := Put(t.kids, k, Arr(init + [last], ArrayElement())))) else None
    else
      match node
      case None =>
        var c' :- Peek(EmptyTable(if kind == Array then ArrayDotted else kind), key[1..], kind);
        Some(t.(kids := Put(t.kids, k, Sub(c'))))
      case Some(Sub(c)) =>
        if kind == Dotted && (c.kind == Explicit || c.kind == Array) then None
        else
          var c' :- Peek(c, key[1..], kind);
          Some(t.(kids := Put(t.kids, k, Sub(c'))))
      case Some(Arr(init, last)) =>
        if kind == Dotted then None
        else
          var last' :- Peek(last, key[1..], kind);
          Some(t.(kids := Put(t.kids, k, Arr(init, last'))))
  }

  /** `peekTable` on the table the path `cur` leads to, inside the whole tree `t`. */
  function PeekAt(t: Tbl, cur: seq<string>, key: seq<string>, kind: Kind): (r: Option<Tbl>)
    requires |key| > 0 && kind != ArrayDotted
    ensures r.Some? <==> Get(t, cur).Some? && Declarable(Get(t, cur).value, key, kind)
    ensures r.Some? ==> Get(r.value, cur) == Peek(Get(t, cur).value, key, kind)
  {
    var c :- Get(t, cur);
    PeekSucceeds(c, key, kind);
    var c' :- Peek(c, key, kind);
    GetSet(t, cur, c');
    Some(Set(t, cur, c'))
  }

  /** `p[1][p[0]] = v`: the value of a key-value line lands in the table the key's prefix leads to. */
  function AssignLeaf(t: Tbl, key: seq<string>, v: Value): (r: Tbl)
    requires |key| > 0
    ensures Get(t, key[..|key| - 1]).Some? ==> NodeAt(r, key) == Some(Leaf(v))
  {
    var parentPath := key[..|key| - 1];
    match Get(t, parentPath)
    case None => t
    case Some(p) =>
      GetSet(t, parentPath, p.(kids := Put(p.kids, key[|key| - 1], Leaf(v))));
      Set(t, parentPath, p.(kids := Put(p.kids, key[|key| - 1], Leaf(v))))
  }

  /*** When peekTable succeeds ***/

  /** May a declaration of `kind` pass through the key holding `node`? */
  predicate PassOk(node: Option<Node>, kind: Kind) {
    match node
    case None => true
    case Some(Leaf(_)) => false
    case Some(Sub(c)) => !(kind == Dotted && (c.kind == Explicit || c.kind == Array))
    case Some(Arr(_, _)) => kind != Dotted
  }

  /**
   * May a declaration of `kind` end at the key holding `node`? A key-value
   * line needs a free key; `[t]` a free key or a table only created
   * implicitly by a header; `[[t]]` a free key or an array of tables.
   */
  predicate FinalOk(node: Option<Node>, kind: Kind) {
    match node
    case None => true
    case Some(Leaf(_)) => false
    case Some(Sub(c)) => kind == Explicit && (c.kind == Explicit || c.kind == ArrayDotted) && !c.defined
    case Some(Arr(_, _)) => kind == Array
  }

  /** Every proper prefix of the key may be passed through and the whole key may be declared. */
  predicate Declarable(t: Tbl, key: seq<string>, kind: Kind)
    requires |key| > 0
  {
    && (forall i :: 1 <= i < |key| ==> PassOk(NodeAt(t, key[..i]), kind))
    && FinalOk(NodeAt(t, key), kind)
  }

  /** Below a key that does not exist yet, everything may be declared. */
  lemma {:induction false} PeekEmpty(kind: Kind, tag: Kind, key: seq<string>)
    requires |key| > 0 && kind != ArrayDotted
    ensures Peek(EmptyTable(tag), key, kind).Some?
    decreases |key|
  {
    if |key| > 1 {
      PeekEmpty(kind, if kind == Array then ArrayDotted else kind, key[1..]);
    }
  }

  lemma DeclarableCons(t: Tbl, key: seq<string>, kind: Kind)
    requires |key| >= 2
    ensures Declarable(t, key, kind) <==>
      PassOk(Lookup(t.kids, key[0]), kind) &&
      match Lookup(t.kids, key[0])
      case Some(Sub(c)) => Declarable(c, key[1..], kind)
      case Some(Arr(_, last)) => Declarable(last, key[1..], kind)
      case _ => true
  {
    var node := Lookup(t.kids, key[0]);
    assert NodeAt(t, key[..1]) == node by {
      assert key[..1][..0] == [];
    }
    forall i | 2 <= i <= |key|
      ensures NodeAt(t, key[..i]) ==
        match node
        case Some(Sub(c)) => NodeAt(c, key[1..][..i - 1])
        case Some(Arr(_, last)) => NodeAt(last, key[1..][..i - 1])
        case _ => None
    {
      NodeAtCons(t, key[..i]);
      assert key[..i][1..] == key[1..][..i - 1];
    }
    match node
    case Some(Sub(c)) => DeclarableThrough(t, key, kind, c);
    case Some(Arr(_, last)) => DeclarableThrough(t, key, kind, last);
    case Some(Leaf(_)) =>
    case None =>
  }

  /** `DeclarableCons` for a key whose first part leads to the table `c`. */
  lemma DeclarableThrough(t: Tbl, key: seq<string>, kind: Kind, c: Tbl)
    requires |key| >= 2
    requires forall i | 2 <= i <= |key| :: NodeAt(t, key[..i]) == NodeAt(c, key[1..][..i - 1])
    ensures Declarable(t, key, kind) <==> PassOk(NodeAt(t, key[..1]), kind) && Declarable(c, key[1..], kind)
  {
    assert key[..|key|] == key;
    assert key[1..][..|key| - 1] == key[1..];
    if Declarable(c, key[1..], kind) && PassOk(NodeAt(t, key[..1]), kind) {
      forall i | 1 <= i < |key|
        ensures PassOk(NodeAt(t, key[..i]), kind)
      {
        if i >= 2 {
          assert PassOk(NodeAt(c, key[1..][..i - 1]), kind);
        }
      }
    }
    if Declarable(t, key, kind) {
      forall i | 1 <= i < |key| - 1
        ensures PassOk(NodeAt(c, key[1..][..i]), kind)
      {
        assert PassOk(NodeAt(t, key[..i + 1]), kind);
      }
    }
  }

  /**
   * `peekTable` succeeds exactly when every proper prefix of the key may be
   * passed through and the key itself may be declared.
   */
  lemma {:induction false} PeekSucceeds(t: Tbl, key: seq<string>, kind: Kind)
    requires |key| > 0 && kind != ArrayDotted
    ensures Peek(t, key, kind).Some? <==> Declarable(t, key, kind)
    decreases |key|
  {
    var node := Lookup(t.kids, key[0]);
    if |key| == 1 {
      assert key[..0] == [];
    } else {
      DeclarableCons(t, key, kind);
      match node
      case None => PeekEmpty(kind, if kind == Array then ArrayDotted else kind, key[1..]);
      case Some(Sub(c)) => PeekSucceeds(c, key[1..], kind);
      case Some(Arr(_, last)) => PeekSucceeds(last, key[1..], kind);
      case Some(Leaf(_)) =>
    }
  }

  /*** What peekTable does ***/

  /** How a path through the updated tree reads, given what its first key now holds. */
  lemma GetCons(t: Tbl, key: seq<string>)
    requires |key| >= 1
    ensures Get(t, key) ==
      match Lookup(t.kids, key[0])
      case Some(Sub(c)) => Get(c, key[1..])
      case Some(Arr(_, last)) => Get(last, key[1..])
      case _ => None
  {
  }

  /** The table a peek descends into below the first key of a longer path. */
  function Below(t: Tbl, k: string, kind: Kind): Tbl {
    match Lookup(t.kids, k)
    case Some(Sub(c)) => c
    case Some(Arr(_, last)) => last
    case _ => EmptyTable(if kind == Array then ArrayDotted else kind)
  }

  /** A successful peek of a longer path rebuilds the first key around the peek below it. */
  lemma PeekStep(t: Tbl, key: seq<string>, kind: Kind)
    requires |key| >= 2 && kind != ArrayDotted && Peek(t, key, kind).Some?
    ensures Peek(Below(t, key[0], kind), key[1..], kind).Some?
    ensures var c' := Peek(Below(t, key[0], kind), key[1..], kind).value;
      var t' := Peek(t, key, kind).value;
      && Lookup(t'.kids, key[0]) == Some(match Lookup(t.kids, key[0]) case Some(Arr(init, _)) => Arr(init, c') case _ => Sub(c'))
      && NodeAt(t', key) == NodeAt(c', key[1..])
      && NodeAt(t, key) == (if Lookup(t.kids, key[0]).None? then None else NodeAt(Below(t, key[0], kind), key[1..]))
  {
    var t' := Peek(t, key, kind).value;
    NodeAtCons(t', key);
    NodeAtCons(t, key);
  }

  /** Below a key that does not exist, nothing exists yet. */
  lemma BelowFresh(t: Tbl, key: seq<string>, kind: Kind)
    requires |key| >= 2
    ensures NodeAt(t, key) == (if Lookup(t.kids, key[0]).None? then None else NodeAt(Below(t, key[0], kind), key[1..]))
    ensures Lookup(t.kids, key[0]).None? ==> NodeAt(Below(t, key[0], kind), key[1..]) == None
  {
    NodeAtCons(t, key);
    if Lookup(t.kids, key[0]).None? && |key| > 2 {
      GetEmpty(if kind == Array then ArrayDotted else kind, key[1..][..|key| - 2]);
    }
  }

  /** A header on a one-key path: what it leaves at the key. */
  lemma PeekLastEffect(t: Tbl, key: seq<string>, kind: Kind)
    requires |key| == 1 && (kind == Explicit || kind == Array) && Peek(t, key, kind).Some?
    ensures var t' := Peek(t, key, kind).value;
      && (kind == Explicit ==> DefinedTable(NodeAt(t, key), NodeAt(t', key)) && Get(t', key) == Some(NodeAt(t', key).value.table))
      && (kind == Array ==> NodeAt(t', key) == Some(Appended(NodeAt(t, key))) && Get(t', key) == Some(ArrayElement()))
  {
    assert key[..0] == [];
    assert key[1..] == [];
    var t' := Peek(t, key, kind).value;
    assert NodeAt(t, key) == Lookup(t.kids, key[0]);
    assert NodeAt(t', key) == Lookup(t'.kids, key[0]);
  }

  /**
   * After a successful key-value peek, the table that will receive the value
   * exists and the final key is still free.
   */
  lemma {:induction false} PeekDottedEffect(t: Tbl, key: seq<string>)
    requires |key| > 0 && Peek(t, key, Dotted).Some?
    ensures Get(Peek(t, key, Dotted).value, key[..|key| - 1]).Some?
    ensures NodeAt(Peek(t, key, Dotted).value, key) == None
    decreases |key|
  {
    var t' := Peek(t, key, Dotted).value;
    if |key| == 1 {
      assert key[..0] == [];
    } else {
      PeekDottedStep(t, key);
      var c := Below(t, key[0], Dotted);
      var c' := Peek(c, key[1..], Dotted).value;
      PeekDottedEffect(c, key[1..]);
      DottedPrefix(t', key, c');
      NodeAtCons(t', key);
      assert |key[1..]| - 1 == |key| - 2;
      assert Get(c', key[1..][..|key| - 2]).Some?;
      assert NodeAt(t', key) == NodeAt(c', key[1..]);
    }
  }

  /** A key-value peek of a longer path descends into a sub-table, never an array of tables. */
  lemma PeekDottedStep(t: Tbl, key: seq<string>)
    requires |key| >= 2 && Peek(t, key, Dotted).Some?
    ensures Peek(Below(t, key[0], Dotted), key[1..], Dotted).Some?
    ensures Lookup(Peek(t, key, Dotted).value.kids, key[0]) == Some(Sub(Peek(Below(t, key[0], Dotted), key[1..], Dotted).value))
  {
  }

  /** The parent path of a key reads through the table its first key now leads to. */
  lemma DottedPrefix(t: Tbl, key: seq<string>, c: Tbl)
    requires |key| >= 2
    requires var node := Lookup(t.kids, key[0]); node == Some(Sub(c)) || (node.Some? && node.value.Arr? && node.value.last == c)
    ensures Get(t, key[..|key| - 1]) == Get(c, key[1..][..|key| - 2])
  {
    var prefix := key[..|key| - 1];
    assert prefix[0] == key[0] && prefix[1..] == key[1..][..|key| - 2];
    GetCons(t, prefix);
  }

  /** The node `[t]` leaves at its key. */
  predicate DefinedTable(before: Option<Node>, after: Option<Node>) {
    && after.Some? && after.value.Sub?
    && after.value.table.defined
    && after.value.table.kids == (if before.Some? && before.value.Sub? then before.value.table.kids else [])
  }

  /**
   * After `[t]`, the key names a defined table that keeps the entries an
   * earlier header may have put under it, and the path leads to it.
   */
  lemma {:induction false} PeekExplicitEffect(t: Tbl, key: seq<string>)
    requires |key| > 0 && Peek(t, key, Explicit).Some?
    ensures var t' := Peek(t, key, Explicit).value;
      && DefinedTable(NodeAt(t, key), NodeAt(t', key))
      && Get(t', key) == Some(NodeAt(t', key).value.table)
    decreases |key|
  {
    var t' := Peek(t, key, Explicit).value;
    if |key| == 1 {
      PeekLastEffect(t, key, Explicit);
    } else {
      PeekStep(t, key, Explicit);
      var c := Below(t, key[0], Explicit);
      var c' := Peek(c, key[1..], Explicit).value;
      PeekExplicitEffect(c, key[1..]);
      assert NodeAt(t', key) == NodeAt(c', key[1..]);
      BelowFresh(t, key, Explicit);
      assert NodeAt(t, key) == NodeAt(c, key[1..]);
      GetCons(t', key);
      assert Get(t', key) == Get(c', key[1..]);
    }
  }

  /** The node `[[t]]` leaves at its key: the earlier elements, then one fresh table. */
  function Appended(before: Option<Node>): Node {
    if before.Some? && before.value.Arr? then Arr(before.value.init + [before.value.last], ArrayElement())
    else Arr([], ArrayElement())
  }

  /**
   * After `[[t]]`, the key holds an array of tables whose earlier elements
   * are kept and which ends in one fresh table; the path leads to that
   * table. Only the first `[[t]]` creates the array.
   */
  lemma {:induction false} PeekArrayEffect(t: Tbl, key: seq<string>)
    requires |key| > 0 && Peek(t, key, Array).Some?
    ensures var t' := Peek(t, key, Array).value;
      && NodeAt(t', key) == Some(Appended(NodeAt(t, key)))
      && Get(t', key) == Some(ArrayElement())
    decreases |key|
  {
    var t' := Peek(t, key, Array).value;
    if |key| == 1 {
      PeekLastEffect(t, key, Array);
    } else {
      PeekStep(t, key, Array);
      var c := Below(t, key[0], Array);
      var c' := Peek(c, key[1..], Array).value;
      PeekArrayEffect(c, key[1..]);
      assert NodeAt(t', key) == NodeAt(c', key[1..]);
      BelowFresh(t, key, Array);
      assert NodeAt(t, key) == NodeAt(c, key[1..]);
      GetCons(t', key);
      assert Get(t', key) == Get(c', key[1..]);
    }
  }

  /*** When peekTable returns null ***/

  /** A key-value line for a key that already exists fails. */
  lemma PeekRejectsDuplicateKey(t: Tbl, key: seq<string>)
    requires |key| > 0 && NodeAt(t, key).Some?
    ensures Peek(t, key, Dotted) == None
  {
    PeekSucceeds(t, key, Dotted);
  }

  /** A second `[t]` for a table already defined fails. */
  lemma PeekRejectsRedefinedTable(t: Tbl, key: seq<string>)
    requires |key| > 0 && NodeAt(t, key).Some? && NodeAt(t, key).value.Sub? && NodeAt(t, key).value.table.defined
    ensures Peek(t, key, Explicit) == None
  {
    PeekSucceeds(t, key, Explicit);
  }

  /**
   * A declaration whose kind differs from the tag of the existing key fails,
   * except `[t]` over a table created by an `[[t.x]]` header.
   */
  lemma PeekRejectsKindMismatch(t: Tbl, key: seq<string>, kind: Kind)
    requires |key| > 0 && kind != ArrayDotted && NodeAt(t, key).Some?
    requires var n := NodeAt(t, key).value;
      var tag := match n case Leaf(_) => Dotted case Sub(c) => c.kind case Arr(_, _) => Array;
      tag != kind && !(kind == Explicit && tag == ArrayDotted)
    ensures Peek(t, key, kind) == None
  {
    PeekSucceeds(t, key, kind);
  }

  /** A key-value line whose dotted key runs through a `[t]` table or an array of tables fails. */
  lemma PeekRejectsDottedThroughHeader(t: Tbl, key: seq<string>, i: nat)
    requires 1 <= i < |key| && NodeAt(t, key[..i]).Some?
    requires var n := NodeAt(t, key[..i]).value; n.Arr? || (n.Sub? && n.table.kind == Explicit)
    ensures Peek(t, key, Dotted) == None
  {
    PeekSucceeds(t, key, Dotted);
  }

  /*** Keys stay unique ***/

  lemma {:induction false} GetUniqueKeys(t: Tbl, path: seq<string>)
    requires UniqueKeys(t) && Get(t, path).Some?
    ensures UniqueKeys(Get(t, path).value)
    decreases |path|
  {
    if path != [] {
      match Lookup(t.kids, path[0])
      case Some(Sub(x)) => GetUniqueKeys(x, path[1..]);
      case Some(Arr(_, last)) => GetUniqueKeys(last, path[1..]);
    }
  }

  lemma {:induction false} SetUniqueKeys(t: Tbl, path: seq<string>, c: Tbl)
    requires UniqueKeys(t) && UniqueKeys(c)
    ensures UniqueKeys(Set(t, path, c))
    decreases |path|
  {
    if path != [] {
      match Lookup(t.kids, path[0])
      case Some(Sub(x)) =>
        SetUniqueKeys(x, path[1..], c);
        PutUniqueKeys(t, path[0], Sub(Set(x, path[1..], c)));
      case Some(Arr(init, last)) =>
        SetUniqueKeys(last, path[1..], c);
        PutUniqueKeys(t, path[0], Arr(init, Set(last, path[1..], c)));
      case _ =>
    }
  }

  /** What a header on a one-key path leaves at the key. */
  function LastNode(node: Option<Node>, kind: Kind): Node
    requires kind == Explicit || kind == Array
  {
    match node
    case Some(Sub(c)) => Sub(c.(defined := true))
    case Some(Arr(init, last)) => Arr(init + [last], ArrayElement())
    case _ => Fresh(kind)
  }

  lemma PeekLastIsPut(t: Tbl, key: seq<string>, kind: Kind)
    requires |key| == 1 && kind != ArrayDotted && Peek(t, key, kind).Some?
    ensures kind == Dotted ==> Peek(t, key, kind).value == t
    ensures kind != Dotted ==> Peek(t, key, kind).value == t.(kids := Put(t.kids, key[0], LastNode(Lookup(t.kids, key[0]), kind)))
  {
  }

  lemma LastNodeUniqueKeys(node: Option<Node>, kind: Kind)
    requires kind == Explicit || kind == Array
    requires node.Some? ==> NodeUniqueKeys(node.value)
    ensures NodeUniqueKeys(LastNode(node, kind))
  {
    match node
    case Some(Arr(init, last)) =>
      assert forall x :: x in init + [last] ==> x in init || x == last;
    case _ =>
  }

  lemma PeekLastUniqueKeys(t: Tbl, key: seq<string>, kind: Kind)
    requires |key| == 1 && kind != ArrayDotted && UniqueKeys(t) && Peek(t, key, kind).Some?
    ensures UniqueKeys(Peek(t, key, kind).value)
  {
    var k := key[0];
    var node := Lookup(t.kids, k);
    PeekLastIsPut(t, key, kind);
    if kind != Dotted {
      if node.Some? {
        assert Entry(k, node.value) in t.kids;
      }
      LastNodeUniqueKeys(node, kind);
      PutUniqueKeys(t, k, LastNode(node, kind));
    }
  }

  /** `peekTable` creates and declares tables without naming any key twice. */
  lemma {:induction false} PeekUniqueKeys(t: Tbl, key: seq<string>, kind: Kind)
    requires |key| > 0 && kind != ArrayDotted && UniqueKeys(t) && Peek(t, key, kind).Some?
    ensures UniqueKeys(Peek(t, key, kind).value)
    decreases |key|
  {
    if |key| == 1 {
      PeekLastUniqueKeys(t, key, kind);
    } else {
      var k := key[0];
      var c := Below(t, k, kind);
      PeekStep(t, key, kind);
      PeekUniqueKeys(c, key[1..], kind);
      var c' := Peek(c, key[1..], kind).value;
      match Lookup(t.kids, k)
      case Some(Arr(init, last)) => PutUniqueKeys(t, k, Arr(init, c'));
      case _ => PutUniqueKeys(t, k, Sub(c'));
    }
  }

  /**
   * A declaration in the current table and the assignment of a key-value
   * line keep every table's keys unique.
   */
  lemma PeekAtUniqueKeys(t: Tbl, cur: seq<string>, key: seq<string>, kind: Kind)
    requires |key| > 0 && kind != ArrayDotted && UniqueKeys(t) && PeekAt(t, cur, key, kind).Some?
    ensures UniqueKeys(PeekAt(t, cur, key, kind).value)
  {
    GetUniqueKeys(t, cur);
    PeekUniqueKeys(Get(t, cur).value, key, kind);
    SetUniqueKeys(t, cur, Peek(Get(t, cur).value, key, kind).value);
  }

  lemma AssignLeafUniqueKeys(t: Tbl, key: seq<string>, v: Value)
    requires |key| > 0 && UniqueKeys(t)
    ensures UniqueKeys(AssignLeaf(t, key, v))
  {
    var parentPath := key[..|key| - 1];
    if Get(t, parentPath).Some? {
      var p := Get(t, parentPath).value;
      GetUniqueKeys(t, parentPath);
      PutUniqueKeys(p, key[|key| - 1], Leaf(v));
      SetUniqueKeys(t, parentPath, p.(kids := Put(p.kids, key[|key| - 1], Leaf(v))));
    }
  }

  /*** Values stay within their levels ***/

  lemma {:induction false} GetFits(t: Tbl, path: seq<string>, d: int)
    requires TblFits(t, d) && Get(t, path).Some?
    ensures TblFits(Get(t, path).value, d)
    decreases |path|
  {
    if path != [] {
      match Lookup(t.kids, path[0])
      case Some(Sub(x)) =>
        assert Entry(path[0], Sub(x)) in t.kids;
        GetFits(x, path[1..], d);
      case Some(Arr(init, last)) =>
        assert Entry(path[0], Arr(init, last)) in t.kids;
        GetFits(last, path[1..], d);
    }
  }

  lemma {:induction false} SetFits(t: Tbl, path: seq<string>, c: Tbl, d: int)
    requires TblFits(t, d) && TblFits(c, d)
    ensures TblFits(Set(t, path, c), d)
    decreases |path|
  {
    if path != [] {
      match Lookup(t.kids, path[0])
      case Some(Sub(x)) =>
        assert Entry(path[0], Sub(x)) in t.kids;
        SetFits(x, path[1..], c, d);
        PutFits(t, path[0], Sub(Set(x, path[1..], c)), d);
      case Some(Arr(init, last)) =>
        assert Entry(path[0], Arr(init, last)) in t.kids;
        SetFits(last, path[1..], c, d);
        PutFits(t, path[0], Arr(init, Set(last, path[1..], c)), d);
      case _ =>
    }
  }

  lemma LastNodeFits(node: Option<Node>, kind: Kind, d: int)
    requires kind == Explicit || kind == Array
    requires d > 0 && (node.Some? ==> NodeFits(node.value, d))
    ensures NodeFits(LastNode(node, kind), d)
  {
    match node
    case Some(Arr(init, last)) =>
      assert forall x :: x in init + [last] ==> x in init || x == last;
    case _ =>
  }

  lemma PeekLastFits(t: Tbl, key: seq<string>, kind: Kind, d: int)
    requires |key| == 1 && kind != ArrayDotted && TblFits(t, d) && Peek(t, key, kind).Some?
    ensures TblFits(Peek(t, key, kind).value, d)
  {
    var k := key[0];
    var node := Lookup(t.kids, k);
    PeekLastIsPut(t, key, kind);
    if kind != Dotted {
      if node.Some? {
        assert Entry(k, node.value) in t.kids;
      }
      LastNodeFits(node, kind, d);
      PutFits(t, k, LastNode(node, kind), d);
    }
  }

  lemma BelowFits(t: Tbl, k: string, kind: Kind, d: int)
    requires TblFits(t, d)
    ensures TblFits(Below(t, k, kind), d)
  {
    match Lookup(t.kids, k)
    case Some(n) => assert Entry(k, n) in t.kids;
    case None =>
  }

  /** `peekTable` only creates empty tables, so every value stays within `d` levels. */
  lemma {:induction false} PeekFits(t: Tbl, key: seq<string>, kind: Kind, d: int)
    requires |key| > 0 && kind != ArrayDotted && TblFits(t, d) && Peek(t, key, kind).Some?
    ensures TblFits(Peek(t, key, kind).value, d)
    decreases |key|
  {
    if |key| == 1 {
      PeekLastFits(t, key, kind, d);
    } else {
      var k := key[0];
      var c := Below(t, k, kind);
      BelowFits(t, k, kind, d);
      PeekStep(t, key, kind);
      PeekFits(c, key[1..], kind, d);
      var c' := Peek(c, key[1..], kind).value;
      match Lookup(t.kids, k)
      case Some(Arr(init, last)) => PutFits(t, k, Arr(init, c'), d);
      case _ => PutFits(t, k, Sub(c'), d);
    }
  }

  /**
   * A declaration in the current table and the assignment of a value that
   * fits one level down keep every value of the tree within `d` levels.
   */
  lemma PeekAtFits(t: Tbl, cur: seq<string>, key: seq<string>, kind: Kind, d: int)
    requires |key| > 0 && kind != ArrayDotted && TblFits(t, d) && PeekAt(t, cur, key, kind).Some?
    ensures TblFits(PeekAt(t, cur, key, kind).value, d)
  {
    GetFits(t, cur, d);
    PeekFits(Get(t, cur).value, key, kind, d);
    SetFits(t, cur, Peek(Get(t, cur).value, key, kind).value, d);
  }

  lemma AssignLeafFits(t: Tbl, key: seq<string>, v: Value, d: int)
    requires |key| > 0 && TblFits(t, d) && FitsDepth(v, d - 1)
    ensures TblFits(AssignLeaf(t, key, v), d)
  {
    var parentPath := key[..|key| - 1];
    if Get(t, parentPath).Some? {
      var p := Get(t, parentPath).value;
      GetFits(t, parentPath, d);
      PutFits(p, key[|key| - 1], Leaf(v), d);
      SetFits(t, parentPath, p.(kids := Put(p.kids, key[|key| - 1], Leaf(v))), d);
    }
  }

  /*** What stays unchanged ***/

  /** Neither path is a prefix of the other: they part at some key. */
  predicate Apart(a: seq<string>, b: seq<string>) {
    !(a <= b) && !(b <= a)
  }

  /** Two tables that agree at a path's first key agree at the path. */
  lemma SameFirstNode(t: Tbl, t': Tbl, q: seq<string>)
    requires |q| > 0 && Lookup(t.kids, q[0]) == Lookup(t'.kids, q[0])
    ensures NodeAt(t, q) == NodeAt(t', q)
  {
    if |q| == 1 {
      assert q[..0] == [];
    } else {
      NodeAtCons(t, q);
      NodeAtCons(t', q);
    }
  }

  /** Paths that part ways still part ways after their common first key. */
  lemma ApartTail(a: seq<string>, b: seq<string>)
    requires Apart(a, b) && a[0] == b[0]
    ensures |a| >= 2 && |b| >= 2 && Apart(a[1..], b[1..])
  {
    assert a == [a[0]] + a[1..] && b == [b[0]] + b[1..];
  }

  /** A path apart from a key but not from its parent goes on below the parent, by another key. */
  lemma ApartParent(q: seq<string>, key: seq<string>)
    requires |key| > 0 && Apart(q, key) && !Apart(q, key[..|key| - 1])
    ensures key[..|key| - 1] < q && q[|key| - 1] != key[|key| - 1]
  {
    var n := |key|;
    assert key == key[..n - 1] + [key[n - 1]];
  }

  /**
   * `peekTable` changes nothing at a path that parts from the key: only the
   * tables along the key itself are created or declared.
   */
  lemma {:induction false} PeekFrame(t: Tbl, key: seq<string>, kind: Kind, q: seq<string>)
    requires |key| > 0 && kind != ArrayDotted && Peek(t, key, kind).Some?
    requires |q| > 0 && Apart(q, key)
    ensures NodeAt(Peek(t, key, kind).value, q) == NodeAt(t, q)
    decreases |key|
  {
    var t' := Peek(t, key, kind).value;
    if q[0] != key[0] {
      SameFirstNode(t, t', q);
    } else {
      ApartTail(q, key);
      PeekStep(t, key, kind);
      var c := Below(t, key[0], kind);
      var c' := Peek(c, key[1..], kind).value;
      PeekFrame(c, key[1..], kind, q[1..]);
      NodeAtCons(t', q);
      BelowFresh(t, q, kind);
    }
  }

  /** Setting a table at `path` changes nothing at a path that parts from it. */
  lemma {:induction false} SetFrameApart(t: Tbl, path: seq<string>, c: Tbl, q: seq<string>)
    requires Get(t, path).Some? && |q| > 0 && Apart(q, path)
    ensures NodeAt(Set(t, path, c), q) == NodeAt(t, q)
    decreases |path|
  {
    var t' := Set(t, path, c);
    if q[0] != path[0] {
      SetFrame(t, path, c, q[0]);
      SameFirstNode(t, t', q);
    } else {
      ApartTail(q, path);
      NodeAtCons(t, q);
      NodeAtCons(t', q);
      match Lookup(t.kids, path[0])
      case Some(Sub(x)) => SetFrameApart(x, path[1..], c, q[1..]);
      case Some(Arr(init, last)) => SetFrameApart(last, path[1..], c, q[1..]);
    }
  }

  /** Below `path`, a node is read from the table `path` leads to. */
  lemma NodeAtBelow(t: Tbl, path: seq<string>, q: seq<string>)
    requires Get(t, path).Some? && path < q
    ensures NodeAt(t, q) == NodeAt(Get(t, path).value, q[|path|..])
  {
    var b := q[|path|..];
    var init := b[..|b| - 1];
    assert q[..|q| - 1] == path + init;
    assert q[|q| - 1] == b[|b| - 1];
    GetAppend(t, path, init);
    assert Get(t, q[..|q| - 1]) == Get(Get(t, path).value, init);
  }

  /**
   * `p[1][p[0]] = v` changes nothing at a path that neither leads to the key
   * nor goes on below it.
   */
  lemma AssignLeafFrame(t: Tbl, key: seq<string>, v: Value, q: seq<string>)
    requires |key| > 0 && |q| > 0 && Apart(q, key)
    ensures NodeAt(AssignLeaf(t, key, v), q) == NodeAt(t, q)
  {
    var n := |key|;
    var parent := key[..n - 1];
    if Get(t, parent).Some? {
      var p := Get(t, parent).value;
      var p' := p.(kids := Put(p.kids, key[n - 1], Leaf(v)));
      if Apart(q, parent) {
        SetFrameApart(t, parent, p', q);
      } else {
        ApartParent(q, key);
        AssignBelowParent(t, parent, p', q);
        SameFirstNode(p, p', q[|parent|..]);
      }
    }
  }

  /** Below `path`, a set table is read as the new table instead of the old one. */
  lemma AssignBelowParent(t: Tbl, path: seq<string>, c: Tbl, q: seq<string>)
    requires Get(t, path).Some? && path < q
    ensures NodeAt(t, q) == NodeAt(Get(t, path).value, q[|path|..])
    ensures NodeAt(Set(t, path, c), q) == NodeAt(c, q[|path|..])
  {
    GetSet(t, path, c);
    NodeAtBelow(t, path, q);
    NodeAtBelow(Set(t, path, c), path, q);
  }

  /**
   * `peekTable` on the table `cur` leads to changes nothing at a path that
   * parts from the key below it.
   */
  lemma PeekAtFrame(t: Tbl, cur: seq<string>, key: seq<string>, kind: Kind, q: seq<string>)
    requires |key| > 0 && kind != ArrayDotted && PeekAt(t, cur, key, kind).Some?
    requires |q| > 0 && Apart(q, cur + key)
    ensures NodeAt(PeekAt(t, cur, key, kind).value, q) == NodeAt(t, q)
  {
    var c := Get(t, cur).value;
    var c' := Peek(c, key, kind).value;
    assert PeekAt(t, cur, key, kind).value == Set(t, cur, c');
    if Apart(q, cur) {
      SetFrameApart(t, cur, c', q);
    } else {
      ApartBelow(cur, key, q);
      AssignBelowParent(t, cur, c', q);
      PeekFrame(c, key, kind, q[|cur|..]);
    }
  }

  /** A path apart from `cur + key` but not from `cur` goes on below `cur`, apart from `key`. */
  lemma ApartBelow(cur: seq<string>, key: seq<string>, q: seq<string>)
    requires |key| > 0 && Apart(q, cur + key) && !Apart(q, cur)
    ensures cur < q && Apart(q[|cur|..], key)
  {
  }

  /*** What later statements keep ***/

  /** The key `k` holds a value at the top of `t`. */
  predicate LeafAt(t: Tbl, k: string) {
    Lookup(t.kids, k).Some? && Lookup(t.kids, k).value.Leaf?
  }

  /**
   * `b` keeps the top level of `a`: its keys, in their order and ahead of
   * any new one, and each value `a` holds there.
   */
  ghost predicate Keeps(a: Tbl, b: Tbl) {
    && Keys(a.kids) <= Keys(b.kids)
    && forall k :: LeafAt(a, k) ==> Lookup(b.kids, k) == Lookup(a.kids, k)
  }

  lemma KeepsTrans(a: Tbl, b: Tbl, c: Tbl)
    requires Keeps(a, b) && Keeps(b, c)
    ensures Keeps(a, c)
  {
    forall k | LeafAt(a, k)
      ensures Lookup(c.kids, k) == Lookup(a.kids, k)
    {
      assert LeafAt(b, k);
    }
  }

  /** Replacing or adding an entry other than a value keeps the top level. */
  lemma PutKeeps(t: Tbl, k: string, n: Node)
    requires !LeafAt(t, k)
    ensures Keeps(t, t.(kids := Put(t.kids, k, n)))
  {
  }

  /** `peekTable` keeps the top level of the table it starts from. */
  lemma PeekKeeps(t: Tbl, key: seq<string>, kind: Kind)
    requires |key| > 0 && kind != ArrayDotted && Peek(t, key, kind).Some?
    ensures Keeps(t, Peek(t, key, kind).value)
  {
    var t' := Peek(t, key, kind).value;
    var k := key[0];
    assert !LeafAt(t, k);
    if |key| == 1 {
      PeekLastIsPut(t, key, kind);
      if kind != Dotted {
        PutKeeps(t, k, LastNode(Lookup(t.kids, k), kind));
      }
    } else {
      PeekLongIsPut(t, key, kind);
      PutKeeps(t, k, Lookup(t'.kids, k).value);
    }
  }

  /** A peek of a longer path puts one entry at the first key. */
  lemma PeekLongIsPut(t: Tbl, key: seq<string>, kind: Kind)
    requires |key| >= 2 && kind != ArrayDotted && Peek(t, key, kind).Some?
    ensures Lookup(Peek(t, key, kind).value.kids, key[0]).Some?
    ensures Peek(t, key, kind).value == t.(kids := Put(t.kids, key[0], Lookup(Peek(t, key, kind).value.kids, key[0]).value))
  {
    var k := key[0];
    var c' := Peek(Below(t, k, kind), key[1..], kind);
    match Lookup(t.kids, k)
    case Some(Arr(init, last)) =>
      assert Peek(t, key, kind) == Some(t.(kids := Put(t.kids, k, Arr(init, c'.value))));
    case Some(Sub(c)) =>
      assert Peek(t, key, kind) == Some(t.(kids := Put(t.kids, k, Sub(c'.value))));
    case None =>
      assert Peek(t, key, kind) == Some(t.(kids := Put(t.kids, k, Sub(c'.value))));
    case Some(Leaf(_)) =>
  }

  /** Setting a table below the top level keeps the top level. */
  lemma SetKeeps(t: Tbl, path: seq<string>, c: Tbl)
    requires path != []
    ensures Keeps(t, Set(t, path, c))
  {
    match Lookup(t.kids, path[0])
    case Some(Sub(x)) => PutKeeps(t, path[0], Sub(Set(x, path[1..], c)));
    case Some(Arr(init, last)) => PutKeeps(t, path[0], Arr(init, Set(last, path[1..], c)));
    case _ =>
  }

  /** So does `peekTable` on the table `cur` leads to. */
  lemma PeekAtKeeps(t: Tbl, cur: seq<string>, key: seq<string>, kind: Kind)
    requires |key| > 0 && kind != ArrayDotted && PeekAt(t, cur, key, kind).Some?
    ensures Keeps(t, PeekAt(t, cur, key, kind).value)
  {
    var c' := Peek(Get(t, cur).value, key, kind).value;
    assert PeekAt(t, cur, key, kind).value == Set(t, cur, c');
    if cur == [] {
      PeekKeeps(t, key, kind);
    } else {
      SetKeeps(t, cur, c');
    }
  }

  /** Assigning a value keeps the top level, unless it overwrites a value there. */
  lemma AssignLeafKeeps(t: Tbl, key: seq<string>, v: Value)
    requires |key| > 0 && (|key| == 1 ==> !LeafAt(t, key[0]))
    ensures Keeps(t, AssignLeaf(t, key, v))
  {
    var n := |key|;
    var parent := key[..n - 1];
    if Get(t, parent).Some? {
      var p := Get(t, parent).value;
      var p' := p.(kids := Put(p.kids, key[n - 1], Leaf(v)));
      if n == 1 {
        assert parent == [];
        PutKeeps(t, key[0], Leaf(v));
      } else {
        SetKeeps(t, parent, p');
      }
    }
  }
}
