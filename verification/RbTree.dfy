/** The red-black half of include/uv/tree.h, on nodes linked by left, right and parent pointers.

    The ghost view of a tree is a `Tree` of the node objects themselves.  `RowOf` reads off the
    view what the four fields of a node must be; `Head.Wired` says that they are.  Every change
    the code makes is, on the view, the replacement of one subtree by another.  The comparison
    function is the order of the integer keys: the code only uses the sign of a comparison. */
module RbTree {

  class Elm {
    const key: int
    var left: Elm?
    var right: Elm?
    var parent: Elm?
    var red: bool

    constructor (key: int)
      ensures this.key == key
    {
      this.key := key;
    }
  }

  datatype Tree = Leaf | Node(red: bool, left: Tree, elm: Elm, right: Tree)

  /** The fields rbe_color, rbe_left, rbe_right and rbe_parent of one node. */
  datatype Row = Row(red: bool, left: Elm?, right: Elm?, parent: Elm?)

  ghost function Fields(e: Elm): Row
    reads e
  {
    Row(e.red, e.left, e.right, e.parent)
  }

  // ---------- Search trees ----------

  ghost predicate Has(t: Tree, older e: Elm) {
    match t
    case Leaf => false
    case Node(_, l, n, r) => e == n || if e.key < n.key then Has(l, e) else Has(r, e)
  }

  ghost function Elems(t: Tree): set<Elm> { if t.Node? then Elems(t.left) + {t.elm} + Elems(t.right) else {} }

  ghost predicate Bst(t: Tree) {
    match t
    case Leaf => true
    case Node(_, l, n, r) =>
      && Bst(l) && Bst(r) && (forall e | Has(l, e) :: e.key < n.key) && (forall e | Has(r, e) :: n.key < e.key)
  }

  ghost function Root(t: Tree): Elm? { if t.Node? then t.elm else null }

  ghost predicate Red(t: Tree) { t.Node? && t.red }

  ghost function Blacken(t: Tree): Tree { if t.Node? then t.(red := false) else t }

  /** The subtree whose root is `e`. */
  ghost function At(t: Tree, e: Elm): (s: Tree)
    requires Has(t, e)
    ensures s.Node? && s.elm == e
  {
    if e == t.elm then t else if e.key < t.elm.key then At(t.left, e) else At(t.right, e)
  }

  ghost function Parent(t: Tree, above: Elm?, e: Elm): Elm?
    requires Has(t, e)
  {
    if e == t.elm then above else if e.key < t.elm.key then Parent(t.left, t.elm, e) else Parent(t.right, t.elm, e)
  }

  ghost function RowOf(t: Tree, above: Elm?, e: Elm): Row
    requires Has(t, e)
  {
    var s := At(t, e);
    Row(s.red, Root(s.left), Root(s.right), Parent(t, above, e))
  }

  /** `t` with the subtree at `e` replaced by `s`. */
  ghost function Replace(t: Tree, e: Elm, s: Tree): Tree
    requires Has(t, e)
  {
    if e == t.elm then s
    else if e.key < t.elm.key then t.(left := Replace(t.left, e, s))
    else t.(right := Replace(t.right, e, s))
  }

  /** One step of a search. */
  lemma {:induction false} Descend(t: Tree, above: Elm?, e: Elm)
    requires Has(t, e) && e != t.elm
    ensures var c := if e.key < t.elm.key then t.left else t.right;
      Has(c, e) && At(t, e) == At(c, e) && Parent(t, above, e) == Parent(c, t.elm, e)
  {
  }

  lemma {:induction false} AtIsSubtree(t: Tree, above: Elm?, e: Elm, j: Elm)
    requires Bst(t) && Has(t, e)
    ensures Bst(At(t, e))
    ensures Has(At(t, e), j) ==>
        Has(t, j) && At(t, j) == At(At(t, e), j) && Parent(t, above, j) == Parent(At(t, e), Parent(t, above, e), j)
  {
    if e != t.elm {
      if e.key < t.elm.key {
        AtIsSubtree(t.left, t.elm, e, j);
      } else {
        AtIsSubtree(t.right, t.elm, e, j);
      }
    }
  }

  ghost predicate IsChild(p: Tree, pe: Elm, s: Tree, e: Elm) {
    p.Node? && p.elm == pe && if e.key < pe.key then p.left == s else e.key > pe.key && p.right == s
  }

  /** A node's parent is where its parent link says, and it is one of that node's children. */
  lemma {:induction false} ParentHolds(t: Tree, above: Elm?, e: Elm)
    requires Bst(t) && Has(t, e)
    ensures e == t.elm ==> Parent(t, above, e) == above
    ensures e != t.elm ==>
        var p := Parent(t, above, e); p != null && Has(t, p) && IsChild(At(t, p), p, At(t, e), e) && !Has(At(t, e), p)
  {
    if e != t.elm {
      if e.key < t.elm.key {
        ParentHolds(t.left, t.elm, e);
      } else {
        ParentHolds(t.right, t.elm, e);
      }
    }
  }

  lemma {:induction false} ReplaceHas(t: Tree, e: Elm, s: Tree, j: Elm)
    requires Bst(t) && Has(t, e) && (forall i | Has(s, i) :: Has(At(t, e), i))
    ensures Has(Replace(t, e, s), j) <==> Has(s, j) || (Has(t, j) && !Has(At(t, e), j))
  {
    if e != t.elm {
      var c := if e.key < t.elm.key then t.left else t.right;
      AtIsSubtree(c, null, e, j);
      AtIsSubtree(c, null, e, t.elm);
      ReplaceHas(c, e, s, j);
    }
  }

  /** Replacing a subtree: inside, the rows are those of the new one under the same parent. */
  lemma {:induction false} ReplaceInside(t: Tree, above: Elm?, e: Elm, s: Tree, j: Elm)
    requires Bst(t) && Has(t, e) && Has(s, j) && Has(At(t, e), j)
    ensures Has(Replace(t, e, s), j) && RowOf(Replace(t, e, s), above, j) == RowOf(s, Parent(t, above, e), j)
  {
    if e != t.elm {
      var c := if e.key < t.elm.key then t.left else t.right;
      AtIsSubtree(c, null, e, j);
      ReplaceInside(c, t.elm, e, s, j);
    }
  }

  /** Outside, only the link down to the subtree can change. */
  lemma {:induction false} ReplaceOutside(t: Tree, above: Elm?, e: Elm, s: Tree, j: Elm)
    requires Bst(t) && Has(t, e) && Has(t, j) && !Has(At(t, e), j)
    requires above != null ==> !Has(t, above)
    ensures Has(Replace(t, e, s), j)
    ensures RowOf(Replace(t, e, s), above, j) ==
            var r := RowOf(t, above, j);
                if Parent(t, above, e) != j then r else if e.key < j.key then r.(left := Root(s))
                else r.(right := Root(s))
  {
    if e != t.elm {
      var c := if e.key < t.elm.key then t.left else t.right;
      ParentHolds(c, t.elm, e);
      if Has(c, j) {
        Descend(t, above, j);
        ReplaceOutside(c, t.elm, e, s, j);
      } else if e != c.elm {
        assert Has(c, Parent(c, t.elm, e));
      }
    }
  }

  lemma {:induction false} ReplaceBst(t: Tree, e: Elm, s: Tree)
    requires Bst(t) && Has(t, e) && Bst(s) && (forall i | Has(s, i) :: Has(At(t, e), i))
    ensures Bst(Replace(t, e, s))
    ensures forall j :: Has(Replace(t, e, s), j) <==> Has(s, j) || (Has(t, j) && !Has(At(t, e), j))
  {
    forall j ensures Has(Replace(t, e, s), j) <==> Has(s, j) || (Has(t, j) && !Has(At(t, e), j)) {
      ReplaceHas(t, e, s, j);
    }
    if e != t.elm {
      if e.key < t.elm.key {
        ReplaceBst(t.left, e, s);
        forall j | Has(Replace(t.left, e, s), j) ensures j.key < t.elm.key { AtIsSubtree(t.left, null, e, j); }
      } else {
        ReplaceBst(t.right, e, s);
        forall j | Has(Replace(t.right, e, s), j) ensures t.elm.key < j.key { AtIsSubtree(t.right, null, e, j); }
      }
    }
  }

  /** In a search tree, searching finds exactly the members. */
  lemma {:induction false} HasElems(t: Tree, e: Elm)
    requires Bst(t)
    ensures Has(t, e) <==> e in Elems(t)
  {
    if t.Node? {
      HasElems(t.left, e);
      HasElems(t.right, e);
    }
  }

  /** The link down to `e`. */
  lemma {:induction false} ParentRow(t: Tree, e: Elm)
    requires Bst(t) && Has(t, e)
    ensures var p := Parent(t, null, e);
      && (p == null <==> e == t.elm)
      && (p != null ==> p in Elems(t) && Has(t, p) && !Has(At(t, e), p)
                        && if e.key < p.key then RowOf(t, null, p).left == e
                            else e.key > p.key && RowOf(t, null, p).right == e && RowOf(t, null, p).left != e)
  {
    ParentHolds(t, null, e);
    var p := Parent(t, null, e);
    if p != null {
      HasElems(t, p);
      AtIsSubtree(t, null, p, p);
      var s := At(t, p);
      assert s.left.Node? ==> Has(s.left, s.left.elm);
    }
  }

  lemma {:induction false} ReplaceElems(t: Tree, e: Elm, s: Tree)
    requires Bst(t) && Has(t, e)
    ensures Elems(At(t, e)) <= Elems(t) && Elems(Replace(t, e, s)) == Elems(t) - Elems(At(t, e)) + Elems(s)
  {
    if e != t.elm {
      var c := if e.key < t.elm.key then t.left else t.right;
      ReplaceElems(c, e, s);
      ElemsApart(t);
    }
  }

  lemma {:induction false} ElemsApart(t: Tree)
    requires Bst(t) && t.Node?
    ensures t.elm !in Elems(t.left) && t.elm !in Elems(t.right) && Elems(t.left) !! Elems(t.right)
  {
    forall e | e in Elems(t.left) ensures e.key < t.elm.key { HasElems(t.left, e); }
    forall e | e in Elems(t.right) ensures t.elm.key < e.key { HasElems(t.right, e); }
  }

  /** Always true: facts about all nodes are used where a node is mentioned with it. */
  ghost predicate Look(e: Elm) { true }

  /** The table `rows` lists the rows of the search tree `t`. */
  ghost predicate Shape(t: Tree, rows: map<Elm, Row>) {
    match Bst(t)
    case true =>
        rows.Keys == Elems(t) && forall e {:trigger Look(e)} | Look(e) && e in rows ::
        Has(t, e) && rows[e] == RowOf(t, null, e)
    case false => false
  }

  // ---------- Rotations ----------

  ghost function RotL(t: Tree): Tree
    requires t.Node? && t.right.Node?
  {
    Node(t.right.red, Node(t.red, t.left, t.elm, t.right.left), t.right.elm, t.right.right)
  }

  ghost function RotR(t: Tree): Tree
    requires t.Node? && t.left.Node?
  {
    Node(t.left.red, t.left.left, t.left.elm, Node(t.red, t.left.right, t.elm, t.right))
  }

  lemma {:induction false} Reparent(t: Tree, p: Elm?, q: Elm?, e: Elm)
    requires Has(t, e)
    ensures Parent(t, q, e) == if e == t.elm then q else Parent(t, p, e)
  {
  }

  /** The pointer assignments of RB_ROTATE_LEFT, as they show in the row of node `e`. */
  ghost function RotLRow(r: Row, e: Elm, x: Elm, y: Elm, b: Elm?, p: Elm?): Row {
    if e == x then r.(right := b, parent := y)
    else if e == y then r.(left := x, parent := p)
    else if e == b then r.(parent := x)
    else if e == p then if r.left == x then r.(left := y) else r.(right := y)
    else r
  }

  lemma {:induction false} RotLLocal(s: Tree, above: Elm?, e: Elm)
    requires Bst(s) && s.Node? && s.right.Node?
    requires above != null ==> !Has(s, above)
    ensures Has(s, s.right.elm) && (s.right.left.Node? ==> Has(s, s.right.left.elm)) && (Has(RotL(s), e) <==> Has(s, e))
    ensures Has(s, e) ==>
        RowOf(RotL(s), above, e) == RotLRow(RowOf(s, above, e), e, s.elm, s.right.elm, Root(s.right.left), above)
  {
    var x, y, b, lower := s.elm, s.right.elm, s.right.left, RotL(s).left;
    assert Has(s.right, y);
    assert b.Node? ==> Has(b, b.elm) && b.elm.key < y.key && Has(s.right, b.elm);
    if Has(s, e) && e != x { Descend(s, above, e); }
    if Has(s, e) && e.key > x.key && e != y { Descend(s.right, x, e); }
    if Has(s, e) && e.key < y.key {
      assert Has(lower, e);
      Descend(RotL(s), above, e);
      if e != x { Descend(lower, y, e); }
      if e.key > x.key { Reparent(b, y, x, e); }
    }
    if Has(s, e) && e.key > y.key { Descend(RotL(s), above, e); }
  }

  lemma {:induction false} RotLOneRow(t: Tree, x: Elm, e: Elm)
    requires Bst(t) && Has(t, x) && At(t, x).right.Node?
    ensures var s := At(t, x); var t' := Replace(t, x, RotL(s)); var p := Parent(t, null, x);
      && (Has(t', e) <==> Has(t, e))
      && (Has(t, e) ==> RowOf(t', null, e) == RotLRow(RowOf(t, null, e), e, x, s.right.elm, Root(s.right.left), p))
  {
    var s, p := At(t, x), Parent(t, null, x);
    AtIsSubtree(t, null, x, e);
    ParentRow(t, x);
    forall i ensures Has(RotL(s), i) <==> Has(s, i) { RotLLocal(s, null, i); }
    ReplaceHas(t, x, RotL(s), e);
    RotLLocal(s, p, e);
    if Has(s, e) {
      ReplaceInside(t, null, x, RotL(s), e);
    } else if Has(t, e) {
      ReplaceOutside(t, null, x, RotL(s), e);
    }
  }

  lemma {:induction false} RotLBst(s: Tree)
    requires Bst(s) && s.Node? && s.right.Node?
    ensures Bst(RotL(s))
  {
    assert Has(s.right, s.right.elm);
    forall i | Has(s.right.left, i) ensures s.elm.key < i.key { assert Has(s.right, i); }
  }

  lemma {:induction false} RotLTree(t: Tree, x: Elm)
    requires Bst(t) && Has(t, x) && At(t, x).right.Node?
    ensures Bst(Replace(t, x, RotL(At(t, x)))) && Elems(Replace(t, x, RotL(At(t, x)))) == Elems(t)
  {
    var s := At(t, x);
    AtIsSubtree(t, null, x, x);
    forall i ensures Has(RotL(s), i) <==> Has(s, i) { RotLLocal(s, null, i); }
    RotLBst(s);
    ReplaceBst(t, x, RotL(s));
    assert Elems(RotL(s)) == Elems(s);
    ReplaceElems(t, x, RotL(s));
  }

  /** The nodes below that a rotation at `x` touches, and how they are linked. */
  lemma {:induction false} RotLBelow(t: Tree, x: Elm)
    requires Bst(t) && Has(t, x) && At(t, x).right.Node?
    ensures var s := At(t, x); var y, b := s.right.elm, s.right.left;
      && x.key < y.key && Has(s, y) && y in Elems(t) && Has(t, y) && RowOf(t, null, y).left == Root(b)
          && RowOf(t, null, y).parent == x
      && (b.Node? ==> Has(s, b.elm) && b.elm in Elems(t) && x.key < b.elm.key < y.key)
  {
    var s := At(t, x);
    var y := s.right.elm;
    AtIsSubtree(t, null, x, y);
    RotLLocal(s, null, x);
    HasElems(t, y);
    assert Has(s.right, y);
    Descend(s, Parent(t, null, x), y);
    if s.right.left.Node? {
      AtIsSubtree(t, null, x, s.right.left.elm);
      HasElems(t, s.right.left.elm);
      assert Has(s.right.left, s.right.left.elm) && Has(s.right, s.right.left.elm);
    }
  }

  ghost function RotLRows(rows: map<Elm, Row>, x: Elm, y: Elm, b: Elm?, p: Elm?): map<Elm, Row> {
    map e | e in rows :: RotLRow(rows[e], e, x, y, b, p)
  }

  /** The nodes that the rotation touches are known and distinct. */
  ghost predicate RotLReady(rows: map<Elm, Row>, x: Elm) {
    x in rows && var y, p := rows[x].right, rows[x].parent; y != null && y in rows && y != x && var b := rows[y].left;
    (b != null ==> b in rows && b != x && b != y) && (p != null ==> p in rows && p != x && p != y && p != b)
  }

  /** The pointer assignments of a rotation at `x` make the rows those of the rotated tree. */
  lemma {:induction false} RotLShape(t: Tree, rows: map<Elm, Row>, x: Elm)
    requires Shape(t, rows) && Has(t, x) && At(t, x).right.Node?
    ensures RotLReady(rows, x) && rows[x].right == At(t, x).right.elm
    ensures var t', y, p := Replace(t, x, RotL(At(t, x))), rows[x].right, rows[x].parent;
      Shape(t', RotLRows(rows, x, y, rows[y].left, p)) && Root(t') == if p == null then y else Root(t)
  {
    var s := At(t, x);
    var t' := Replace(t, x, RotL(s));
    HasElems(t, x);
    assert Look(x);
    RotLBelow(t, x);
    assert Look(s.right.elm);
    ParentRow(t, x);
    RotLTree(t, x);
    forall e | Look(e) && e in rows
        ensures Has(t', e) && RowOf(t', null, e) ==
        RotLRow(rows[e], e, x, s.right.elm, Root(s.right.left), Parent(t, null, x))
    {
      RotLOneRow(t, x, e);
    }
  }

  /** The pointer assignments of RB_ROTATE_RIGHT, as they show in the row of node `e`. */
  ghost function RotRRow(r: Row, e: Elm, x: Elm, y: Elm, b: Elm?, p: Elm?): Row {
    if e == x then r.(left := b, parent := y)
    else if e == y then r.(right := x, parent := p)
    else if e == b then r.(parent := x)
    else if e == p then if r.left == x then r.(left := y) else r.(right := y)
    else r
  }

  lemma {:induction false} RotRLocal(s: Tree, above: Elm?, e: Elm)
    requires Bst(s) && s.Node? && s.left.Node?
    requires above != null ==> !Has(s, above)
    ensures Has(s, s.left.elm) && (s.left.right.Node? ==> Has(s, s.left.right.elm)) && (Has(RotR(s), e) <==> Has(s, e))
    ensures Has(s, e) ==>
        RowOf(RotR(s), above, e) == RotRRow(RowOf(s, above, e), e, s.elm, s.left.elm, Root(s.left.right), above)
  {
    var x, y, b, lower := s.elm, s.left.elm, s.left.right, RotR(s).right;
    assert Has(s.left, y);
    assert b.Node? ==> Has(b, b.elm) && b.elm.key > y.key && Has(s.left, b.elm);
    if Has(s, e) && e != x { Descend(s, above, e); }
    if Has(s, e) && e.key < x.key && e != y { Descend(s.left, x, e); }
    if Has(s, e) && e.key > y.key {
      assert Has(lower, e);
      Descend(RotR(s), above, e);
      if e != x { Descend(lower, y, e); }
      if e.key < x.key { Reparent(b, y, x, e); }
    }
    if Has(s, e) && e.key < y.key { Descend(RotR(s), above, e); }
  }

  lemma {:induction false} RotROneRow(t: Tree, x: Elm, e: Elm)
    requires Bst(t) && Has(t, x) && At(t, x).left.Node?
    ensures var s := At(t, x); var t' := Replace(t, x, RotR(s)); var p := Parent(t, null, x);
      && (Has(t', e) <==> Has(t, e))
      && (Has(t, e) ==> RowOf(t', null, e) == RotRRow(RowOf(t, null, e), e, x, s.left.elm, Root(s.left.right), p))
  {
    var s, p := At(t, x), Parent(t, null, x);
    AtIsSubtree(t, null, x, e);
    ParentRow(t, x);
    forall i ensures Has(RotR(s), i) <==> Has(s, i) { RotRLocal(s, null, i); }
    ReplaceHas(t, x, RotR(s), e);
    RotRLocal(s, p, e);
    if Has(s, e) {
      ReplaceInside(t, null, x, RotR(s), e);
    } else if Has(t, e) {
      ReplaceOutside(t, null, x, RotR(s), e);
    }
  }

  lemma {:induction false} RotRBst(s: Tree)
    requires Bst(s) && s.Node? && s.left.Node?
    ensures Bst(RotR(s))
  {
    assert Has(s.left, s.left.elm);
    forall i | Has(s.left.right, i) ensures i.key < s.elm.key { assert Has(s.left, i); }
  }

  lemma {:induction false} RotRTree(t: Tree, x: Elm)
    requires Bst(t) && Has(t, x) && At(t, x).left.Node?
    ensures Bst(Replace(t, x, RotR(At(t, x)))) && Elems(Replace(t, x, RotR(At(t, x)))) == Elems(t)
  {
    var s := At(t, x);
    AtIsSubtree(t, null, x, x);
    forall i ensures Has(RotR(s), i) <==> Has(s, i) { RotRLocal(s, null, i); }
    RotRBst(s);
    ReplaceBst(t, x, RotR(s));
    assert Elems(RotR(s)) == Elems(s);
    ReplaceElems(t, x, RotR(s));
  }

  /** The nodes below that a rotation at `x` touches, and how they are linked. */
  lemma {:induction false} RotRBelow(t: Tree, x: Elm)
    requires Bst(t) && Has(t, x) && At(t, x).left.Node?
    ensures var s := At(t, x); var y, b := s.left.elm, s.left.right;
      && y.key < x.key && Has(s, y) && y in Elems(t) && Has(t, y) && RowOf(t, null, y).right == Root(b)
          && RowOf(t, null, y).parent == x
      && (b.Node? ==> Has(s, b.elm) && b.elm in Elems(t) && y.key < b.elm.key < x.key)
  {
    var s := At(t, x);
    var y := s.left.elm;
    AtIsSubtree(t, null, x, y);
    RotRLocal(s, null, x);
    HasElems(t, y);
    assert Has(s.left, y);
    Descend(s, Parent(t, null, x), y);
    if s.left.right.Node? {
      AtIsSubtree(t, null, x, s.left.right.elm);
      HasElems(t, s.left.right.elm);
      assert Has(s.left.right, s.left.right.elm) && Has(s.left, s.left.right.elm);
    }
  }

  ghost function RotRRows(rows: map<Elm, Row>, x: Elm, y: Elm, b: Elm?, p: Elm?): map<Elm, Row> {
    map e | e in rows :: RotRRow(rows[e], e, x, y, b, p)
  }

  /** The nodes that the rotation touches are known and distinct. */
  ghost predicate RotRReady(rows: map<Elm, Row>, x: Elm) {
    x in rows && var y, p := rows[x].left, rows[x].parent; y != null && y in rows && y != x && var b := rows[y].right;
    (b != null ==> b in rows && b != x && b != y) && (p != null ==> p in rows && p != x && p != y && p != b)
  }

  /** The pointer assignments of a rotation at `x` make the rows those of the rotated tree. */
  lemma {:induction false} RotRShape(t: Tree, rows: map<Elm, Row>, x: Elm)
    requires Shape(t, rows) && Has(t, x) && At(t, x).left.Node?
    ensures RotRReady(rows, x) && rows[x].left == At(t, x).left.elm
    ensures var t', y, p := Replace(t, x, RotR(At(t, x))), rows[x].left, rows[x].parent;
      Shape(t', RotRRows(rows, x, y, rows[y].right, p)) && Root(t') == if p == null then y else Root(t)
  {
    var s := At(t, x);
    var t' := Replace(t, x, RotR(s));
    HasElems(t, x);
    assert Look(x);
    RotRBelow(t, x);
    assert Look(s.left.elm);
    ParentRow(t, x);
    RotRTree(t, x);
    forall e | Look(e) && e in rows
        ensures Has(t', e) && RowOf(t', null, e) ==
        RotRRow(rows[e], e, x, s.left.elm, Root(s.left.right), Parent(t, null, x))
    {
      RotROneRow(t, x, e);
    }
  }


  /** Recolouring one node. */
  ghost function Paint(t: Tree, e: Elm, red: bool): Tree {
    if Has(t, e) then var s := At(t, e); Replace(t, e, s.(red := red)) else t
  }

  lemma {:induction false} PaintShape(t: Tree, rows: map<Elm, Row>, x: Elm, red: bool)
    requires Shape(t, rows) && Has(t, x)
    ensures x in rows && Shape(Paint(t, x, red), rows[x := rows[x].(red := red)]) && Root(Paint(t, x, red)) == Root(t)
  {
    var s := At(t, x);
    var s' := s.(red := red);
    HasElems(t, x);
    AtIsSubtree(t, null, x, x);
    ReplaceBst(t, x, s');
    ReplaceElems(t, x, s');
    ParentRow(t, x);
    forall e | Look(e) && e in rows
        ensures Has(Paint(t, x, red), e) && RowOf(Paint(t, x, red), null, e) == if e == x then rows[x].(red := red)
        else rows[e]
    {
      AtIsSubtree(t, null, x, e);
      if Has(s, e) {
        ReplaceInside(t, null, x, s', e);
      } else {
        ReplaceOutside(t, null, x, s', e);
      }
    }
  }

  /** Working inside a replaced subtree is working on the replacement. */
  lemma {:induction false} Nested(t: Tree, g: Elm, s: Tree, j: Elm, u: Tree)
    requires Bst(t) && Has(t, g) && Has(s, j) && Has(At(t, g), j)
    ensures var t' := Replace(t, g, s);
      Has(t', j) && At(t', j) == At(s, j) && Replace(t', j, u) == Replace(t, g, Replace(s, j, u))
  {
    if g != t.elm {
      var c := if g.key < t.elm.key then t.left else t.right;
      AtIsSubtree(c, null, g, j);
      Nested(c, g, s, j, u);
    }
  }

  // ---------- Balance ----------

  /** Every path down meets `h` black nodes, and no red node has a red child, except that the
      node `z` may be a red child of a red node. */
  ghost predicate Balanced(t: Tree, h: int, z: Elm?) {
    match t
    case Leaf => h == 0
    case Node(red, l, _, r) =>
      var below := if red then h else h - 1;
      && (red ==> (Red(l) ==> l.elm == z) && (Red(r) ==> r.elm == z))
      && Balanced(l, below, z) && Balanced(r, below, z)
  }

  /** The black height of the subtree at `e`. */
  ghost function HeightAt(t: Tree, h: int, e: Elm): int
    requires Has(t, e)
  {
    var below := if t.red then h else h - 1;
    if e == t.elm then h else if e.key < t.elm.key then HeightAt(t.left, below, e) else HeightAt(t.right, below, e)
  }

  lemma {:induction false} BalancedAt(t: Tree, h: int, z: Elm?, e: Elm)
    requires Has(t, e) && Balanced(t, h, z)
    ensures Balanced(At(t, e), HeightAt(t, h, e), z)
  {
    if e != t.elm {
      BalancedAt(if e.key < t.elm.key then t.left else t.right, if t.red then h else h - 1, z, e);
    }
  }

  /** The exemption can be changed where it is not used: `z` is not below the root. */
  lemma {:induction false} NoExemption(t: Tree, h: int, z: Elm?, z': Elm?)
    requires Balanced(t, h, z)
    requires z !in Elems(t) || (Bst(t) && t.elm == z)
    ensures Balanced(t, h, z')
  {
    if t.Node? {
      if z == t.elm { ElemsApart(t); }
      assert t.left.Node? ==> t.left.elm in Elems(t.left);
      assert t.right.Node? ==> t.right.elm in Elems(t.right);
      NoExemption(t.left, if t.red then h else h - 1, z, z');
      NoExemption(t.right, if t.red then h else h - 1, z, z');
    }
  }

  lemma {:induction false} ReplaceSame(t: Tree, e: Elm)
    requires Has(t, e)
    ensures Replace(t, e, At(t, e)) == t
  {
    if e != t.elm { ReplaceSame(if e.key < t.elm.key then t.left else t.right, e); }
  }

  ghost function PathLen(t: Tree, e: Elm): nat
    requires Has(t, e)
  {
    if e == t.elm then 0 else 1 + if e.key < t.elm.key then PathLen(t.left, e) else PathLen(t.right, e)
  }

  lemma {:induction false} MoreExempt(t: Tree, h: int, z: Elm?)
    requires Balanced(t, h, null)
    ensures Balanced(t, h, z)
  {
    if t.Node? {
      MoreExempt(t.left, if t.red then h else h - 1, z);
      MoreExempt(t.right, if t.red then h else h - 1, z);
    }
  }

  /** A subtree replaced by one of the same black height, whose root is red only if it may be. */
  lemma {:induction false} BalanceReplace(t: Tree, h: int, z: Elm, g: Elm, s: Tree, z': Elm?)
    requires Bst(t) && Has(t, g) && Balanced(t, h, z) && Has(At(t, g), z) && z != g
    requires Balanced(s, HeightAt(t, h, g), z') && (Red(s) ==> Red(At(t, g)) || s.elm == z')
    ensures Balanced(Replace(t, g, s), h, z')
  {
    if g != t.elm {
      var c, other := if g.key < t.elm.key then t.left else t.right, if g.key < t.elm.key then t.right else t.left;
      BalanceReplace(c, if t.red then h else h - 1, z, g, s, z');
      AtIsSubtree(c, null, g, z);
      HasElems(t.left, z);
      HasElems(t.right, z);
      assert Has(c, z) && z !in Elems(other) && z != t.elm;
      NoExemption(other, if t.red then h else h - 1, z, z');
      if g != c.elm {
        AtIsSubtree(if g.key < c.elm.key then c.left else c.right, null, g, c.elm);
        assert z != c.elm;
      }
    }
  }

  ghost predicate ParentRed(t: Tree, e: Elm)
    requires Has(t, e)
  {
    var p := Parent(t, null, e);
    p != null && Has(t, p) && At(t, p).red
  }

  /** A red node's exemption is void unless its parent is red. */
  lemma {:induction false} DropExemption(t: Tree, above: Elm?, h: int, z: Elm)
    requires Bst(t) && Has(t, z) && Balanced(t, h, z)
    requires z != t.elm ==> var p := Parent(t, above, z); p != null && Has(t, p) && !At(t, p).red
    ensures Balanced(t, h, null)
  {
    var below := if t.red then h else h - 1;
    HasElems(t, z);
    ElemsApart(t);
    if z == t.elm {
      NoExemption(t, h, z, null);
    } else {
      var c, other := if z.key < t.elm.key then t.left else t.right, if z.key < t.elm.key then t.right else t.left;
      HasElems(c, z);
      NoExemption(other, below, z, null);
      ParentHolds(c, t.elm, z);
      if z != c.elm {
        var p := Parent(c, t.elm, z);
        HasElems(c, p);
      }
      DropExemption(c, t.elm, below, z);
      assert other.Node? ==> other.elm in Elems(other);
    }
  }

  // ---------- The insertion cases ----------

  /** The tree is balanced but for the red node `z`, which may be the root or a red node's child. */
  ghost predicate RedSpot(t: Tree, h: int, z: Elm) {
    match Bst(t)
    case true => Has(t, z) && At(t, z).red && Balanced(t, h, z) && (Red(t) ==> t.elm == z)
    case false => false
  }

  /** A red node `z` with a red parent `p`: the grandparent `g` is black and holds them both. */
  ghost predicate RedRed(t: Tree, h: int, z: Elm, p: Elm, g: Elm) {
    match RedSpot(t, h, z)
    case true =>
      && Has(t, p) && At(t, p).red && Has(t, g) && var s := At(t, g);
      && Bst(s) && !s.red && z != g && p != g && z != p && Has(s, z) && Has(s, p) && Balanced(s, HeightAt(t, h, g), z)
      && IsChild(s, g, At(t, p), p) && IsChild(At(t, p), p, At(t, z), z)
    case false => false
  }

  lemma {:induction false} RedRedSetup(t: Tree, h: int, z: Elm)
    requires RedSpot(t, h, z) && ParentRed(t, z)
    ensures var p := Parent(t, null, z); p != null && Has(t, p) && var g := Parent(t, null, p);
      g != null && RedRed(t, h, z, p, g) && PathLen(t, g) < PathLen(t, z)
  {
    var p := Parent(t, null, z);
    ParentHolds(t, null, z);
    ParentHolds(t, null, p);
    BlackUnlessExempt(t, h, z, p);
    var g := Parent(t, null, p);
    AtIsSubtree(t, null, g, p);
    AtIsSubtree(t, null, p, z);
    AtIsSubtree(At(t, g), null, p, z);
    AtIsSubtree(t, null, g, z);
    BalancedAt(t, h, z, g);
    PathGrows(t, null, z);
    PathGrows(t, null, p);
  }

  lemma {:induction false} ReplacePathLen(t: Tree, g: Elm, s: Tree)
    requires Bst(t) && Has(t, g) && s.Node? && Has(At(t, g), s.elm)
    ensures Has(Replace(t, g, s), s.elm) && PathLen(Replace(t, g, s), s.elm) == PathLen(t, g)
  {
    if g != t.elm {
      var c := if g.key < t.elm.key then t.left else t.right;
      AtIsSubtree(c, null, g, s.elm);
      ReplacePathLen(c, g, s);
    }
  }

  lemma {:induction false} PathGrows(t: Tree, above: Elm?, e: Elm)
    requires Bst(t) && Has(t, e) && e != t.elm
    ensures var p := Parent(t, above, e); p != null && Has(t, p) && PathLen(t, p) < PathLen(t, e)
  {
    var c := if e.key < t.elm.key then t.left else t.right;
    if e != c.elm { PathGrows(c, t.elm, e); ParentHolds(c, t.elm, e); }
  }

  /** The parent of a red node other than the exempt one is black. */
  lemma {:induction false} BlackUnlessExempt(t: Tree, h: int, z: Elm, p: Elm)
    requires Bst(t) && Has(t, p) && Balanced(t, h, z) && At(t, p).red && p != z && (Red(t) ==> t.elm == z)
    ensures p != t.elm && var g := Parent(t, null, p); g != null && Has(t, g) && !At(t, g).red
  {
    ParentHolds(t, null, p);
    var g := Parent(t, null, p);
    if p != t.elm {
      BalancedAt(t, h, z, g);
    }
  }

  lemma {:induction false} StrictlyBelow(t: Tree, g: Elm, z: Elm)
    requires Bst(t) && Has(t, g) && Has(At(t, g), z) && g != t.elm
    ensures z != t.elm
  {
    AtIsSubtree(if g.key < t.elm.key then t.left else t.right, null, g, z);
  }

  /** The repaired subtree goes back into the tree. */
  lemma {:induction false} RedSpotReplace(t: Tree, h: int, z: Elm, g: Elm, s: Tree, z': Elm)
    requires RedSpot(t, h, z) && Has(t, g) && Has(At(t, g), z) && z != g && Bst(s) && Elems(s) == Elems(At(t, g))
    requires Balanced(s, HeightAt(t, h, g), z') && Has(s, z') && At(s, z').red && (Red(s) ==> s.elm == z')
        && !At(t, g).red
    ensures RedSpot(Replace(t, g, s), h, z')
  {
    SubtreeBack(t, g, s, z');
    BalanceReplace(t, h, z, g, s, z');
    if g != t.elm { StrictlyBelow(t, g, z); }
  }

  lemma {:induction false} SubtreeBack(t: Tree, g: Elm, s: Tree, j: Elm)
    requires Bst(t) && Has(t, g) && Bst(s) && Elems(s) == Elems(At(t, g)) && Has(s, j)
    ensures Bst(Replace(t, g, s)) && Has(Replace(t, g, s), j) && At(Replace(t, g, s), j) == At(s, j)
  {
    AtIsSubtree(t, null, g, g);
    forall i | Has(s, i) ensures Has(At(t, g), i) { HasElems(s, i); HasElems(At(t, g), i); }
    ReplaceBst(t, g, s);
    Nested(t, g, s, j, Leaf);
  }

  lemma {:induction false} RedRedSides(t: Tree, h: int, z: Elm, p: Elm, g: Elm)
    requires RedRed(t, h, z, p, g)
    ensures Root(At(t, g).left) == p <==> p.key < g.key
    ensures p.key != g.key && p.key != z.key && (Root(At(t, p).right) == z <==> p.key < z.key)
        && (Root(At(t, p).left) == z <==> z.key < p.key)
  {
    var s := At(t, g);
    assert s.left.Node? ==> Has(s.left, s.left.elm);
    AtIsSubtree(t, null, p, p);
    assert At(t, p).right.Node? ==> Has(At(t, p).right, At(t, p).right.elm);
    assert At(t, p).left.Node? ==> Has(At(t, p).left, At(t, p).left.elm);
  }

  lemma {:induction false} DropExemption2(t: Tree, h: int, z: Elm)
    requires RedSpot(t, h, z) && !ParentRed(t, z)
    ensures Balanced(t, h, null)
  {
    ParentHolds(t, null, z);
    DropExemption(t, null, h, z);
  }

  lemma {:induction false} BlackenRoot(t: Tree, h: int)
    requires Balanced(t, h, null) && t.Node?
    ensures !Red(Paint(t, t.elm, false)) && Balanced(Paint(t, t.elm, false), if Red(t) then h + 1 else h, null)
  {
  }

  lemma {:induction false} ChildElems(t: Tree, e: Elm)
    requires Bst(t) && Has(t, e)
    ensures e in Elems(t)
    ensures var c := At(t, e).left; c.Node? ==> c.elm in Elems(t) && Has(t, c.elm) && c == At(t, c.elm)
    ensures var c := At(t, e).right; c.Node? ==> c.elm in Elems(t) && Has(t, c.elm) && c == At(t, c.elm)
  {
    var s := At(t, e);
    HasElems(t, e);
    AtIsSubtree(t, null, e, e);
    if s.left.Node? {
      assert Has(s.left, s.left.elm);
      AtIsSubtree(t, null, e, s.left.elm);
      HasElems(t, s.left.elm);
    }
    if s.right.Node? {
      assert Has(s.right, s.right.elm);
      AtIsSubtree(t, null, e, s.right.elm);
      HasElems(t, s.right.elm);
    }
  }

  lemma {:induction false} BlackenBst(s: Tree)
    requires Bst(s)
    ensures Bst(Blacken(s)) && Elems(Blacken(s)) == Elems(s) && forall e :: Has(Blacken(s), e) <==> Has(s, e)
  {
  }

  /** Painting inside a replaced subtree. */
  lemma {:induction false} PaintNested(t: Tree, g: Elm, s: Tree, j: Elm, red: bool)
    requires Bst(t) && Has(t, g) && Has(s, j) && Has(At(t, g), j)
    ensures Paint(Replace(t, g, s), j, red) == Replace(t, g, Paint(s, j, red))
  {
    var u := At(s, j);
    Nested(t, g, s, j, u.(red := red));
  }

  lemma {:induction false} PaintLeft(s: Tree, red: bool)
    requires Bst(s) && s.Node? && s.left.Node?
    ensures Paint(s, s.left.elm, red) == s.(left := s.left.(red := red))
  {
    assert Has(s.left, s.left.elm);
    assert Has(s, s.left.elm) && At(s, s.left.elm) == s.left;
    var c := s.left.(red := red);
    assert Replace(s.left, s.left.elm, c) == c;
  }

  /** First case: the uncle is red too, and the red node moves two levels up. */
  lemma {:induction false} UncleRedTreeLeft(t: Tree, h: int, z: Elm, p: Elm, g: Elm, u: Elm)
    requires RedRed(t, h, z, p, g) && p.key < g.key && Red(At(t, g).right) && At(t, g).right.elm == u
    ensures var t' := Paint(Paint(Paint(t, u, false), p, false), g, true);
      RedSpot(t', h, g) && PathLen(t', g) == PathLen(t, g)
  {
    var s := At(t, g);
    var s' := s.(red := true, left := Blacken(s.left), right := Blacken(s.right));
    assert Has(s.right, u) && g.key < u.key;
    BlackenBst(s.left);
    BlackenBst(s.right);
    var s1 := s.(right := Blacken(s.right));
    var s2 := s1.(left := Blacken(s.left));
    ReplaceSame(t, g);
    PaintNested(t, g, s, u, false);
    PaintRight(s, false);
    assert Has(s1, p) && Bst(s1);
    PaintNested(t, g, s1, p, false);
    PaintLeft(s1, false);
    assert Has(s, g);
    PaintNested(t, g, s2, g, true);
    assert Paint(s2, g, true) == s';
    UncleRedLeft(s, HeightAt(t, h, g), z);
    RedSpotReplace(t, h, z, g, s', g);
    ReplacePathLen(t, g, s');
  }

  lemma {:induction false} UncleRedLeft(s: Tree, h: int, z: Elm)
    requires Bst(s) && s.Node? && !s.red && Red(s.left) && Red(s.right) && Balanced(s, h, z)
    requires Root(s.left.left) == z || Root(s.left.right) == z
    ensures Balanced(s.(red := true, left := Blacken(s.left), right := Blacken(s.right)), h, s.elm)
  {
    GrandchildLeft(s, z);
    NoExemption(s.left.left, h - 1, z, s.elm);
    NoExemption(s.left.right, h - 1, z, s.elm);
    NoExemption(s.right.left, h - 1, z, s.elm);
    NoExemption(s.right.right, h - 1, z, s.elm);
  }

  /** Where a grandchild is not. */
  lemma {:induction false} GrandchildLeft(s: Tree, z: Elm)
    requires Bst(s) && s.Node? && s.left.Node? && (Root(s.left.left) == z || Root(s.left.right) == z)
    ensures z !in Elems(s.right) && z != s.elm && z != s.left.elm && Bst(s.left)
    ensures Root(s.left.left) == z ==> z !in Elems(s.left.right)
    ensures Root(s.left.right) == z ==> z !in Elems(s.left.left)
  {
    ElemsApart(s);
    ElemsApart(s.left);
    assert z in Elems(s.left);
  }

  lemma {:induction false} OuterLeft(s: Tree, h: int, z: Elm)
    requires Bst(s) && s.Node? && !s.red && Red(s.left) && !Red(s.right) && Balanced(s, h, z) && Root(s.left.left) == z
    ensures Balanced(RotR(s.(red := true, left := Blacken(s.left))), h, null)
  {
    GrandchildLeft(s, z);
    NoExemption(s.left.left, h - 1, z, null);
    NoExemption(s.left.right, h - 1, z, null);
    NoExemption(s.right, h - 1, z, null);
    assert s.left.right.Node? ==> s.left.right.elm in Elems(s.left.right);
  }

  lemma {:induction false} InnerLeftBst(s: Tree)
    requires Bst(s) && s.Node? && s.left.Node? && s.left.right.Node?
    ensures Bst(s.(left := RotL(s.left)))
  {
    RotLBst(s.left);
    forall e | Has(RotL(s.left), e) ensures e.key < s.elm.key { RotLLocal(s.left, null, e); }
  }

  lemma {:induction false} InnerLeft(s: Tree, h: int, z: Elm)
    requires Bst(s) && s.Node? && !s.red && Red(s.left) && !Red(s.right) && Balanced(s, h, z) && Red(s.left.right)
        && Root(s.left.right) == z
    ensures var s' := s.(left := RotL(s.left));
        Red(s'.left) && Balanced(s', h, s.left.elm) && Root(s'.left.left) == s.left.elm
  {
    var p, q := s.left.elm, s.left.right;
    GrandchildLeft(s, z);
    ElemsApart(q);
    assert Balanced(s.left, h - 1, z) && Balanced(q, h - 1, z);
    assert q.left.Node? ==> q.left.elm in Elems(q.left);
    assert q.right.Node? ==> q.right.elm in Elems(q.right);
    assert s.left.left.Node? ==> s.left.left.elm in Elems(s.left.left);
    NoExemption(s.left.left, h - 1, z, p);
    NoExemption(q.left, h - 1, z, p);
    NoExemption(q.right, h - 1, z, p);
    NoExemption(s.right, h - 1, z, p);
  }

  /** Second case, an inner red node: rotating the parent makes it the third case. */
  lemma {:induction false} InnerTreeLeft(t: Tree, h: int, z: Elm, p: Elm, g: Elm)
    requires RedRed(t, h, z, p, g) && p.key < g.key && p.key < z.key && !Red(At(t, g).right)
    ensures At(t, p).right.Node? && var t' := Replace(t, p, RotL(At(t, p)));
      RedRed(t', h, p, z, g) && z.key < g.key && p.key < z.key && !Red(At(t', g).right)
  {
    var s := At(t, g);
    var s' := s.(left := RotL(s.left));
    ReplaceSame(t, g);
    Nested(t, g, s, p, RotL(s.left));
    assert Has(s.left, p);
    assert Replace(s.left, p, RotL(s.left)) == RotL(s.left);
    assert Replace(s, p, RotL(s.left)) == s';
    InnerLeft(s, HeightAt(t, h, g), z);
    InnerLeftBst(s);
    assert Has(s.left, z) && Has(s'.left, z) && Has(s'.left, p) && Has(s', p) && Has(s', z);
    assert Has(s'.left.left, p) && At(s'.left, p) == s'.left.left;
    Descend(s', null, p);
    assert At(s', z) == s'.left && At(s', p) == s'.left.left;
    assert Elems(RotL(s.left)) == Elems(s.left);
    RedSpotReplace(t, h, z, g, s', p);
    SubtreeBack(t, g, s', p);
    SubtreeBack(t, g, s', z);
    SubtreeBack(t, g, s', g);
    BalancedAt(Replace(t, g, s'), h, p, g);
  }

  /** The colours of the outer case, seen in the tree. */
  lemma {:induction false} OuterPaintedLeft(t: Tree, h: int, z: Elm, p: Elm, g: Elm) returns (s: Tree, s2: Tree)
    requires RedRed(t, h, z, p, g) && p.key < g.key && z.key < p.key && !Red(At(t, g).right)
    ensures s == At(t, g) && s.Node? && s.left.Node? && s2 == s.(left := Blacken(s.left), red := true) && Bst(s2)
    ensures var t' := Paint(Paint(t, p, false), g, true);
      Bst(t') && Has(t', g) && At(t', g) == s2 && Replace(t', g, RotR(s2)) == Replace(t, g, RotR(s2))
  {
    s := At(t, g);
    BlackenBst(s.left);
    var s1 := s.(left := Blacken(s.left));
    s2 := s1.(red := true);
    ReplaceSame(t, g);
    PaintNested(t, g, s, p, false);
    PaintLeft(s, false);
    assert Bst(s1) && Has(s1, g) && Paint(s1, g, true) == s2;
    PaintNested(t, g, s1, g, true);
    SubtreeBack(t, g, s2, g);
    Nested(t, g, s2, g, RotR(s2));
    assert Replace(s2, g, RotR(s2)) == RotR(s2);
  }

  /** Third case, an outer red node: one rotation of the grandparent ends the repair. */
  lemma {:induction false} OuterTreeLeft(t: Tree, h: int, z: Elm, p: Elm, g: Elm)
    requires RedRed(t, h, z, p, g) && p.key < g.key && z.key < p.key && !Red(At(t, g).right)
    ensures var t' := Paint(Paint(t, p, false), g, true);
      && Bst(t') && Has(t', g) && At(t', g).left.Node? && var t'' := Replace(t', g, RotR(At(t', g)));
      RedSpot(t'', h, z) && !ParentRed(t'', z)
  {
    var s, s2 := OuterPaintedLeft(t, h, z, p, g);
    var r := RotR(s2);
    OuterLeft(s, HeightAt(t, h, g), z);
    MoreExempt(r, HeightAt(t, h, g), z);
    RotRBst(s2);
    assert Has(s.left, z) && Has(s.left.left, z) && At(s.left.left, z) == s.left.left;
    assert Has(r, z) && At(r, z) == s.left.left;
    RedSpotReplace(t, h, z, g, r, z);
    SubtreeBack(t, g, r, p);
    AtIsSubtree(Replace(t, g, r), null, p, z);
    assert Parent(r, Parent(Replace(t, g, r), null, p), z) == p;
  }

  lemma {:induction false} PaintRight(s: Tree, red: bool)
    requires Bst(s) && s.Node? && s.right.Node?
    ensures Paint(s, s.right.elm, red) == s.(right := s.right.(red := red))
  {
    assert Has(s.right, s.right.elm);
    assert Has(s, s.right.elm) && At(s, s.right.elm) == s.right;
    var c := s.right.(red := red);
    assert Replace(s.right, s.right.elm, c) == c;
  }

  /** First case: the uncle is red too, and the red node moves two levels up. */
  lemma {:induction false} UncleRedTreeRight(t: Tree, h: int, z: Elm, p: Elm, g: Elm, u: Elm)
    requires RedRed(t, h, z, p, g) && p.key > g.key && Red(At(t, g).left) && At(t, g).left.elm == u
    ensures var t' := Paint(Paint(Paint(t, u, false), p, false), g, true);
      RedSpot(t', h, g) && PathLen(t', g) == PathLen(t, g)
  {
    var s := At(t, g);
    var s' := s.(red := true, right := Blacken(s.right), left := Blacken(s.left));
    assert Has(s.left, u) && g.key > u.key;
    BlackenBst(s.right);
    BlackenBst(s.left);
    var s1 := s.(left := Blacken(s.left));
    var s2 := s1.(right := Blacken(s.right));
    ReplaceSame(t, g);
    PaintNested(t, g, s, u, false);
    PaintLeft(s, false);
    assert Has(s1, p) && Bst(s1);
    PaintNested(t, g, s1, p, false);
    PaintRight(s1, false);
    assert Has(s, g);
    PaintNested(t, g, s2, g, true);
    assert Paint(s2, g, true) == s';
    UncleRedRight(s, HeightAt(t, h, g), z);
    RedSpotReplace(t, h, z, g, s', g);
    ReplacePathLen(t, g, s');
  }

  lemma {:induction false} UncleRedRight(s: Tree, h: int, z: Elm)
    requires Bst(s) && s.Node? && !s.red && Red(s.right) && Red(s.left) && Balanced(s, h, z)
    requires Root(s.right.right) == z || Root(s.right.left) == z
    ensures Balanced(s.(red := true, right := Blacken(s.right), left := Blacken(s.left)), h, s.elm)
  {
    GrandchildRight(s, z);
    NoExemption(s.right.right, h - 1, z, s.elm);
    NoExemption(s.right.left, h - 1, z, s.elm);
    NoExemption(s.left.right, h - 1, z, s.elm);
    NoExemption(s.left.left, h - 1, z, s.elm);
  }

  /** Where a grandchild is not. */
  lemma {:induction false} GrandchildRight(s: Tree, z: Elm)
    requires Bst(s) && s.Node? && s.right.Node? && (Root(s.right.right) == z || Root(s.right.left) == z)
    ensures z !in Elems(s.left) && z != s.elm && z != s.right.elm && Bst(s.right)
    ensures Root(s.right.right) == z ==> z !in Elems(s.right.left)
    ensures Root(s.right.left) == z ==> z !in Elems(s.right.right)
  {
    ElemsApart(s);
    ElemsApart(s.right);
    assert z in Elems(s.right);
  }

  lemma {:induction false} OuterRight(s: Tree, h: int, z: Elm)
    requires Bst(s) && s.Node? && !s.red && Red(s.right) && !Red(s.left) && Balanced(s, h, z)
        && Root(s.right.right) == z
    ensures Balanced(RotL(s.(red := true, right := Blacken(s.right))), h, null)
  {
    GrandchildRight(s, z);
    NoExemption(s.right.right, h - 1, z, null);
    NoExemption(s.right.left, h - 1, z, null);
    NoExemption(s.left, h - 1, z, null);
    assert s.right.left.Node? ==> s.right.left.elm in Elems(s.right.left);
  }

  lemma {:induction false} InnerRightBst(s: Tree)
    requires Bst(s) && s.Node? && s.right.Node? && s.right.left.Node?
    ensures Bst(s.(right := RotR(s.right)))
  {
    RotRBst(s.right);
    forall e | Has(RotR(s.right), e) ensures e.key > s.elm.key { RotRLocal(s.right, null, e); }
  }

  lemma {:induction false} InnerRight(s: Tree, h: int, z: Elm)
    requires Bst(s) && s.Node? && !s.red && Red(s.right) && !Red(s.left) && Balanced(s, h, z) && Red(s.right.left)
        && Root(s.right.left) == z
    ensures var s' := s.(right := RotR(s.right));
        Red(s'.right) && Balanced(s', h, s.right.elm) && Root(s'.right.right) == s.right.elm
  {
    var p, q := s.right.elm, s.right.left;
    GrandchildRight(s, z);
    ElemsApart(q);
    assert Balanced(s.right, h - 1, z) && Balanced(q, h - 1, z);
    assert q.right.Node? ==> q.right.elm in Elems(q.right);
    assert q.left.Node? ==> q.left.elm in Elems(q.left);
    assert s.right.right.Node? ==> s.right.right.elm in Elems(s.right.right);
    NoExemption(s.right.right, h - 1, z, p);
    NoExemption(q.right, h - 1, z, p);
    NoExemption(q.left, h - 1, z, p);
    NoExemption(s.left, h - 1, z, p);
  }

  /** Second case, an inner red node: rotating the parent makes it the third case. */
  lemma {:induction false} InnerTreeRight(t: Tree, h: int, z: Elm, p: Elm, g: Elm)
    requires RedRed(t, h, z, p, g) && p.key > g.key && p.key > z.key && !Red(At(t, g).left)
    ensures At(t, p).left.Node? && var t' := Replace(t, p, RotR(At(t, p)));
      RedRed(t', h, p, z, g) && z.key > g.key && p.key > z.key && !Red(At(t', g).left)
  {
    var s := At(t, g);
    var s' := s.(right := RotR(s.right));
    ReplaceSame(t, g);
    Nested(t, g, s, p, RotR(s.right));
    assert Has(s.right, p);
    assert Replace(s.right, p, RotR(s.right)) == RotR(s.right);
    assert Replace(s, p, RotR(s.right)) == s';
    InnerRight(s, HeightAt(t, h, g), z);
    InnerRightBst(s);
    assert Has(s.right, z) && Has(s'.right, z) && Has(s'.right, p) && Has(s', p) && Has(s', z);
    assert Has(s'.right.right, p) && At(s'.right, p) == s'.right.right;
    Descend(s', null, p);
    assert At(s', z) == s'.right && At(s', p) == s'.right.right;
    assert Elems(RotR(s.right)) == Elems(s.right);
    RedSpotReplace(t, h, z, g, s', p);
    SubtreeBack(t, g, s', p);
    SubtreeBack(t, g, s', z);
    SubtreeBack(t, g, s', g);
    BalancedAt(Replace(t, g, s'), h, p, g);
  }

  lemma {:induction false} OuterPaintedRight(t: Tree, h: int, z: Elm, p: Elm, g: Elm) returns (s: Tree, s2: Tree)
    requires RedRed(t, h, z, p, g) && p.key > g.key && z.key > p.key && !Red(At(t, g).left)
    ensures s == At(t, g) && s.Node? && s.right.Node? && s2 == s.(right := Blacken(s.right), red := true) && Bst(s2)
    ensures var t' := Paint(Paint(t, p, false), g, true);
      Bst(t') && Has(t', g) && At(t', g) == s2 && Replace(t', g, RotL(s2)) == Replace(t, g, RotL(s2))
  {
    s := At(t, g);
    BlackenBst(s.right);
    var s1 := s.(right := Blacken(s.right));
    s2 := s1.(red := true);
    ReplaceSame(t, g);
    PaintNested(t, g, s, p, false);
    PaintRight(s, false);
    assert Bst(s1) && Has(s1, g) && Paint(s1, g, true) == s2;
    PaintNested(t, g, s1, g, true);
    SubtreeBack(t, g, s2, g);
    Nested(t, g, s2, g, RotL(s2));
    assert Replace(s2, g, RotL(s2)) == RotL(s2);
  }

  /** Third case, an outer red node: one rotation of the grandparent ends the repair. */
  lemma {:induction false} OuterTreeRight(t: Tree, h: int, z: Elm, p: Elm, g: Elm)
    requires RedRed(t, h, z, p, g) && p.key > g.key && z.key > p.key && !Red(At(t, g).left)
    ensures var t' := Paint(Paint(t, p, false), g, true);
      && Bst(t') && Has(t', g) && At(t', g).right.Node? && var t'' := Replace(t', g, RotL(At(t', g)));
      RedSpot(t'', h, z) && !ParentRed(t'', z)
  {
    var s, s2 := OuterPaintedRight(t, h, z, p, g);
    var r := RotL(s2);
    OuterRight(s, HeightAt(t, h, g), z);
    MoreExempt(r, HeightAt(t, h, g), z);
    RotLBst(s2);
    assert Has(s.right, z) && Has(s.right.right, z) && At(s.right.right, z) == s.right.right;
    assert Has(r, z) && At(r, z) == s.right.right;
    RedSpotReplace(t, h, z, g, r, z);
    SubtreeBack(t, g, r, p);
    AtIsSubtree(Replace(t, g, r), null, p, z);
    assert Parent(r, Parent(Replace(t, g, r), null, p), z) == p;
  }

  // ---------- Putting a leaf in ----------

  ghost function Insert(t: Tree, e: Elm): Tree {
    match t
    case Leaf => Node(true, Leaf, e, Leaf)
    case Node(red, l, n, r) => if e.key < n.key then t.(left := Insert(l, e)) else t.(right := Insert(r, e))
  }

  /** The last node on the search path of a new node. */
  ghost function Last(t: Tree, above: Elm?, e: Elm): Elm? {
    match t
    case Leaf => above
    case Node(_, l, n, r) => if e.key < n.key then Last(l, n, e) else Last(r, n, e)
  }

  ghost function InsertRows(rows: map<Elm, Row>, e: Elm, p: Elm?): map<Elm, Row> {
    var linked := if p != null && p in rows
        then rows[p := if e.key < p.key then rows[p].(left := e) else rows[p].(right := e)] else rows;
    linked[e := Row(true, null, null, p)]
  }

  ghost predicate NewKey(t: Tree, e: Elm) { forall x <- Elems(t) :: x.key != e.key }

  lemma {:induction false} InsertBst(t: Tree, e: Elm)
    requires Bst(t) && NewKey(t, e)
    ensures Bst(Insert(t, e)) && Elems(Insert(t, e)) == Elems(t) + {e}
  {
    if t.Node? {
      if e.key < t.elm.key {
        InsertBst(t.left, e);
        forall x | Has(Insert(t.left, e), x) ensures x.key < t.elm.key {
          HasElems(Insert(t.left, e), x);
          HasElems(t.left, x);
        }
      } else {
        InsertBst(t.right, e);
        forall x | Has(Insert(t.right, e), x) ensures x.key > t.elm.key {
          HasElems(Insert(t.right, e), x);
          HasElems(t.right, x);
        }
      }
    }
  }

  lemma {:induction false} InsertBalanced(t: Tree, h: int, e: Elm)
    requires Balanced(t, h, null)
    ensures Balanced(Insert(t, e), h, e) && (Red(Insert(t, e)) ==> Red(t) || Root(Insert(t, e)) == e)
  {
    if t.Node? {
      var below := if t.red then h else h - 1;
      if e.key < t.elm.key {
        InsertBalanced(t.left, below, e);
        MoreExempt(t.right, below, e);
      } else {
        InsertBalanced(t.right, below, e);
        MoreExempt(t.left, below, e);
      }
    }
  }

  lemma {:induction false} InsertedRow(t: Tree, above: Elm?, e: Elm)
    requires e !in Elems(t)
    ensures Has(Insert(t, e), e) && At(Insert(t, e), e).red
        && RowOf(Insert(t, e), above, e) == Row(true, null, null, Last(t, above, e))
  {
    if t.Node? {
      if e.key < t.elm.key { InsertedRow(t.left, t.elm, e); } else { InsertedRow(t.right, t.elm, e); }
    }
  }

  ghost function BlackHeight(t: Tree): nat {
    match t
    case Leaf => 0
    case Node(red, l, _, _) => BlackHeight(l) + if red then 0 else 1
  }

  lemma {:induction false} HeightUnique(t: Tree, h: int)
    requires Balanced(t, h, null)
    ensures h == BlackHeight(t)
  {
    if t.Node? { HeightUnique(t.left, if t.red then h else h - 1); }
  }

  /** A key below the root's is on the left if anywhere. */
  lemma {:induction false} KeepsLeft(t: Tree, e: Elm)
    requires Bst(t) && t.Node? && e.key < t.elm.key
    ensures forall x <- Elems(t) :: x.key == e.key ==> x in Elems(t.left)
  {
    forall x | x in Elems(t.right) ensures x.key > t.elm.key { HasElems(t.right, x); }
  }

  lemma {:induction false} KeepsRight(t: Tree, e: Elm)
    requires Bst(t) && t.Node? && e.key > t.elm.key
    ensures forall x <- Elems(t) :: x.key == e.key ==> x in Elems(t.right)
  {
    forall x | x in Elems(t.left) ensures x.key < t.elm.key { HasElems(t.left, x); }
  }

  lemma {:induction false} InsertRow(t: Tree, above: Elm?, e: Elm, j: Elm)
    requires Bst(t) && NewKey(t, e) && Has(t, j) && (above != null ==> !Has(t, above))
    ensures Has(Insert(t, e), j)
    ensures RowOf(Insert(t, e), above, j) ==
            var r := RowOf(t, above, j);
                if j != Last(t, above, e) then r else if e.key < j.key then r.(left := e) else r.(right := e)
  {
    HasElems(t, j);
    ElemsApart(t);
    LastIn(t.left, t.elm, e);
    LastIn(t.right, t.elm, e);
    if j != t.elm {
      Descend(t, above, j);
      var c := if j.key < t.elm.key then t.left else t.right;
      HasElems(c, j);
      HasElems(c, t.elm);
      if (j.key < t.elm.key) == (e.key < t.elm.key) { InsertRow(c, t.elm, e, j); }
    }
  }

  lemma {:induction false} LastIn(t: Tree, above: Elm?, e: Elm)
    ensures if t.Leaf? then Last(t, above, e) == above else Last(t, above, e) in Elems(t)
  {
    if t.Node? {
      LastIn(t.left, t.elm, e);
      LastIn(t.right, t.elm, e);
    }
  }

  lemma {:induction false} InsertShape(t: Tree, rows: map<Elm, Row>, e: Elm, h: int)
    requires Shape(t, rows) && NewKey(t, e) && e !in rows && Balanced(t, h, null) && !Red(t)
    ensures Shape(Insert(t, e), InsertRows(rows, e, Last(t, null, e))) && RedSpot(Insert(t, e), h, e)
    ensures Last(t, null, e) != null ==> Last(t, null, e) in rows && Root(Insert(t, e)) == Root(t)
    ensures Last(t, null, e) == null ==> Root(Insert(t, e)) == e
  {
    InsertBst(t, e);
    InsertBalanced(t, h, e);
    InsertedRow(t, null, e);
    LastIn(t, null, e);
    var t', rows' := Insert(t, e), InsertRows(rows, e, Last(t, null, e));
    forall j | Look(j) && j in rows' ensures Has(t', j) && rows'[j] == RowOf(t', null, j) {
      if j != e { InsertRow(t, null, e, j); }
    }
  }

  // ---------- Taking a node out ----------

  /** Black height one short of `h`, unless blackening the root makes up for it. */
  ghost predicate Short(t: Tree, h: int) {
    match t
    case Leaf => h == 1
    case Node(red, _, _, _) => if red then Balanced(Blacken(t), h, null) else Balanced(t, h - 1, null)
  }

  /** The tree is balanced but for one child of `p`, which is short. */
  ghost predicate Deficit(t: Tree, h: int, p: Elm, onLeft: bool) {
    match t
    case Leaf => false
    case Node(red, l, n, r) =>
      var below := if red then h else h - 1;
      if n == p then
        if onLeft then Short(l, below) && Balanced(r, below, null) && !(red && Red(r))
        else Short(r, below) && Balanced(l, below, null) && !(red && Red(l))
      else
        && !(red && (Red(l) || Red(r)))
        && if p.key < n.key then Deficit(l, below, p, onLeft) && Balanced(r, below, null)
            else Deficit(r, below, p, onLeft) && Balanced(l, below, null)
  }

  ghost predicate DeficitLeft(t: Tree, h: int, p: Elm) { Deficit(t, h, p, true) }

  ghost predicate DeficitRight(t: Tree, h: int, p: Elm) { Deficit(t, h, p, false) }

  /** Where RB_REMOVE_COLOR stands: `x` is the short child of `p`, or the short tree itself. */
  ghost predicate Spot(t: Tree, h: int, p: Elm?, onLeft: bool, x: Elm?) {
    match Bst(t)
    case true =>
      if p == null then Short(t, h) && x == Root(t)
      else
        && Deficit(t, h, p, onLeft) && !Red(t) && Has(t, p)
        && x == Root(if onLeft then At(t, p).left else At(t, p).right)
    case false => false
  }

  lemma {:induction false} HeightNonNegative(t: Tree, h: int, z: Elm?)
    requires Balanced(t, h, z)
    ensures h >= 0 && (t.Node? && !t.red ==> h >= 1)
  {
    if t.Node? { HeightNonNegative(t.left, if t.red then h else h - 1, z); }
  }

  lemma {:induction false} DeficitAt(t: Tree, h: int, p: Elm, onLeft: bool)
    requires Deficit(t, h, p, onLeft)
    ensures Has(t, p) && Deficit(At(t, p), HeightAt(t, h, p), p, onLeft)
  {
    if p != t.elm { DeficitAt(if p.key < t.elm.key then t.left else t.right, if t.red then h else h - 1, p, onLeft); }
  }

  /** The short place is gone. */
  lemma {:induction false} DeficitEnds(t: Tree, h: int, p: Elm, onLeft: bool, s: Tree)
    requires Bst(t) && Deficit(t, h, p, onLeft) && Has(t, p) && Balanced(s, HeightAt(t, h, p), null)
        && (Red(s) ==> Red(At(t, p)))
    ensures Balanced(Replace(t, p, s), h, null) && (Red(Replace(t, p, s)) ==> Red(t))
  {
    if p != t.elm {
      DeficitEnds(if p.key < t.elm.key then t.left else t.right, if t.red then h else h - 1, p, onLeft, s);
    }
  }

  /** The short place is further down now. */
  lemma {:induction false} DeficitStays(t: Tree, h: int, p: Elm, onLeft: bool, s: Tree)
    requires Bst(t) && Deficit(t, h, p, onLeft) && Has(t, p) && Deficit(s, HeightAt(t, h, p), p, onLeft)
        && (Red(s) ==> Red(At(t, p)))
    requires s.Node? && Has(At(t, p), s.elm)
    ensures Deficit(Replace(t, p, s), h, p, onLeft) && (Red(Replace(t, p, s)) ==> Red(t))
  {
    if p != t.elm {
      var c := if p.key < t.elm.key then t.left else t.right;
      DeficitStays(c, if t.red then h else h - 1, p, onLeft, s);
      AtIsSubtree(c, null, p, s.elm);
    }
  }

  /** Everything but the subtree at `e` is balanced. */
  ghost predicate Around(t: Tree, h: int, e: Elm) {
    match t
    case Leaf => true
    case Node(red, l, n, r) =>
      var below := if red then h else h - 1;
      e == n || (!(red && (Red(l) || Red(r))) && if e.key < n.key then Around(l, below, e) && Balanced(r, below, null)
          else Around(r, below, e) && Balanced(l, below, null))
  }

  lemma {:induction false} BalancedAround(t: Tree, h: int, e: Elm)
    requires Balanced(t, h, null)
    ensures Around(t, h, e)
  {
    if t.Node? {
      BalancedAround(t.left, if t.red then h else h - 1, e);
      BalancedAround(t.right, if t.red then h else h - 1, e);
    }
  }

  lemma {:induction false} DeficitAround(t: Tree, h: int, e: Elm, onLeft: bool)
    requires Deficit(t, h, e, onLeft)
    ensures Around(t, h, e)
  {
    if e != t.elm {
      DeficitAround(if e.key < t.elm.key then t.left else t.right, if t.red then h else h - 1, e, onLeft);
    }
  }

  /** A subtree that becomes short makes its parent's side the short place. */
  lemma {:induction false} ShortBelow(t: Tree, above: Elm?, h: int, e: Elm, s: Tree)
    requires Bst(t) && Has(t, e) && e != t.elm && Around(t, h, e) && Short(s, HeightAt(t, h, e))
    ensures var p := Parent(t, above, e);
        p != null && Has(t, p) && e.key != p.key && Deficit(Replace(t, e, s), h, p, e.key < p.key)
    ensures Red(Replace(t, e, s)) == Red(t)
  {
    var c, below := if e.key < t.elm.key then t.left else t.right, if t.red then h else h - 1;
    ParentHolds(t, above, e);
    if e != c.elm {
      ShortBelow(c, t.elm, below, e, s);
      ParentHolds(c, t.elm, e);
    } else {
      assert Has(c, e) && c.Node? && c.elm == e;
      assert HeightAt(c, below, e) == below && HeightAt(t, h, e) == below;
      assert Replace(c, e, s) == s;
      assert Parent(c, t.elm, e) == t.elm && Parent(t, above, e) == t.elm;
    }
  }

  /** A subtree that keeps its root and becomes short: where the short place is then. */
  lemma {:induction false} ShortPlaced(t: Tree, h: int, p: Elm, s: Tree)
    requires Bst(t) && Has(t, p) && Around(t, h, p) && !Red(t) && Short(s, HeightAt(t, h, p)) && s.Node? && s.elm == p
    requires Bst(Replace(t, p, s)) && Has(Replace(t, p, s), p) && At(Replace(t, p, s), p) == s
    ensures var t', q := Replace(t, p, s), Parent(t, null, p);
      Spot(t', h, q, q != null && p.key < q.key, p) && (q != null ==> Has(t', q) && PathLen(t', q) < PathLen(t, p))
  {
    var t', q := Replace(t, p, s), Parent(t, null, p);
    ParentHolds(t, null, p);
    if q != null {
      ShortBelow(t, null, h, p, s);
      DeficitAt(t', h, q, p.key < q.key);
      KeepsParent(t, null, p, s);
      ParentHolds(t', null, p);
      PathGrows(t', null, p);
      assert Has(s, s.elm) && Has(At(t, p), s.elm);
      ReplacePathLen(t, p, s);
    }
  }

  lemma {:induction false} KeepsParent(t: Tree, above: Elm?, p: Elm, s: Tree)
    requires Bst(t) && Has(t, p) && s.Node? && s.elm == p
    ensures Has(Replace(t, p, s), p) && Parent(Replace(t, p, s), above, p) == Parent(t, above, p)
  {
    if p != t.elm { KeepsParent(if p.key < t.elm.key then t.left else t.right, t.elm, p, s); }
  }

  lemma {:induction false} PaintBst(t: Tree, e: Elm, red: bool)
    requires Bst(t) && Has(t, e)
    ensures Bst(Paint(t, e, red)) && Elems(Paint(t, e, red)) == Elems(t) && Has(Paint(t, e, red), e)
  {
    var s := At(t, e);
    var s' := s.(red := red);
    AtIsSubtree(t, null, e, e);
    assert Has(s', e);
    SubtreeBack(t, e, s', e);
    ReplaceElems(t, e, s');
  }

  lemma {:induction false} PaintTop(s: Tree, red: bool)
    requires s.Node?
    ensures Has(s, s.elm) && Paint(s, s.elm, red) == s.(red := red)
  {
  }

  /** Recolouring the subtree at `p` at one of its nodes, seen from the whole tree. */
  lemma {:induction false} PaintWithin(t: Tree, p: Elm, s: Tree, j: Elm, red: bool)
    requires Bst(t) && Has(t, p) && Bst(s) && Elems(s) == Elems(At(t, p)) && Has(s, j)
    ensures var s' := Paint(s, j, red);
      && Has(Replace(t, p, s), j) && At(Replace(t, p, s), j) == At(s, j)
      && Paint(Replace(t, p, s), j, red) == Replace(t, p, s') && Bst(s') && Elems(s') == Elems(s)
  {
    AtIsSubtree(t, null, p, p);
    HasElems(s, j);
    HasElems(At(t, p), j);
    PaintNested(t, p, s, j, red);
    SubtreeBack(t, p, s, j);
    PaintBst(s, j, red);
  }

  /** Taking out a red node with a child missing keeps the balance. */
  lemma {:induction false} SpliceRed(t: Tree, h: int, e: Elm, s: Tree)
    requires Has(t, e) && Balanced(t, h, null) && Balanced(s, HeightAt(t, h, e), null) && (Red(s) ==> Red(At(t, e)))
    ensures Balanced(Replace(t, e, s), h, null) && (Red(Replace(t, e, s)) ==> Red(t))
  {
    if e != t.elm { SpliceRed(if e.key < t.elm.key then t.left else t.right, if t.red then h else h - 1, e, s); }
  }

  /** The sibling of a short black subtree is a node. */
  lemma {:induction false} SiblingLeft(s: Tree, h: int)
    requires s.Node? && DeficitLeft(s, h, s.elm) && !Red(s.left)
    ensures s.right.Node?
  {
    var below := if s.red then h else h - 1;
    if s.left.Node? { HeightNonNegative(s.left, below - 1, null); }
  }

  /** Case 1, red sibling: rotate it up; the short side gets a black sibling. */
  lemma {:induction false} RedSiblingLeft(s: Tree, h: int)
    requires Bst(s) && s.Node? && DeficitLeft(s, h, s.elm) && Red(s.right)
    ensures var s' := RotL(s.(red := true, right := Blacken(s.right)));
      DeficitLeft(s', h, s.elm) && !Red(s') && !s.red && s'.left.elm == s.elm && s'.left.red && s'.left.left == s.left
          && !Red(s'.left.right)
  {
    var s' := RotL(s.(red := true, right := Blacken(s.right)));
    assert Has(s.right, s.right.elm);
    assert DeficitLeft(s'.left, h - 1, s.elm);
  }

  /** Case 2, black sibling with black children: it turns red and the whole subtree is short. */
  lemma {:induction false} BlackNephewsLeft(s: Tree, h: int)
    requires s.Node? && DeficitLeft(s, h, s.elm) && s.right.Node? && !s.right.red && !Red(s.left)
        && !Red(s.right.left) && !Red(s.right.right)
    ensures Short(s.(right := s.right.(red := true)), h)
  {
  }

  /** Case 3, only the near nephew red: rotate it up to get a far red nephew. */
  lemma {:induction false} NearNephewLeft(s: Tree, h: int)
    requires s.Node? && DeficitLeft(s, h, s.elm) && s.right.Node? && !s.right.red && Red(s.right.left)
        && !Red(s.right.right)
    ensures var w := RotR(s.right.(red := true, left := Blacken(s.right.left)));
      DeficitLeft(s.(right := w), h, s.elm) && !w.red && Red(w.right)
  {
    var below, w0 := if s.red then h else h - 1, s.right;
    assert Balanced(w0.left, below - 1, null) && Balanced(w0.right, below - 1, null);
    assert Balanced(w0.left.left, below - 1, null) && Balanced(w0.left.right, below - 1, null);
    var w := RotR(w0.(red := true, left := Blacken(w0.left)));
    assert Balanced(w.right, below - 1, null);
  }

  /** Case 4, far nephew red: one rotation restores the balance. */
  lemma {:induction false} FarNephewLeft(s: Tree, h: int)
    requires s.Node? && DeficitLeft(s, h, s.elm) && s.right.Node? && !s.right.red && !Red(s.left) && Red(s.right.right)
    ensures var s' := RotL(s.(red := false, right := s.right.(red := s.red, right := Blacken(s.right.right))));
      Balanced(s', h, null) && s'.red == s.red
  {
    var below, w := if s.red then h else h - 1, s.right;
    assert Balanced(w.left, below - 1, null) && Balanced(w.right, below - 1, null);
    assert Balanced(w.right.left, below - 1, null) && Balanced(w.right.right, below - 1, null);
    assert Balanced(Blacken(w.right), below, null);
    var s' := RotL(s.(red := false, right := w.(red := s.red, right := Blacken(w.right))));
    assert Balanced(s'.left, below, null);
  }

  lemma {:induction false} RotLWithin(t: Tree, p: Elm, s: Tree, j: Elm)
    requires Bst(t) && Has(t, p) && Bst(s) && Elems(s) == Elems(At(t, p)) && Has(s, j) && At(s, j).right.Node?
    ensures var s' := Replace(s, j, RotL(At(s, j)));
      && Has(Replace(t, p, s), j) && At(Replace(t, p, s), j) == At(s, j)
      && Replace(Replace(t, p, s), j, RotL(At(s, j))) == Replace(t, p, s') && Bst(s') && Elems(s') == Elems(s)
  {
    AtIsSubtree(t, null, p, p);
    HasElems(s, j);
    HasElems(At(t, p), j);
    Nested(t, p, s, j, RotL(At(s, j)));
    SubtreeBack(t, p, s, j);
    RotLTree(s, j);
  }

  lemma {:induction false} RedSiblingTreeLeft(t: Tree, h: int, p: Elm)
    requires Bst(t) && DeficitLeft(t, h, p) && !Red(t) && Has(t, p) && Red(At(t, p).right)
    ensures var w := At(t, p).right.elm; var t1 := Paint(t, w, false); var t2 := Paint(t1, p, true);
      && Has(t, w) && Has(t1, p) && Has(t2, p) && At(t2, p).right.Node? && var t3 := Replace(t2, p, RotL(At(t2, p)));
      Bst(t3) && DeficitLeft(t3, h, p) && !Red(t3) && Has(t3, p) && At(t3, p).red && At(t3, p).left == At(t, p).left
          && !Red(At(t3, p).right)
  {
    var s := At(t, p);
    var w := s.right.elm;
    AtIsSubtree(t, null, p, p);
    ReplaceSame(t, p);
    assert Has(s.right, w) && Has(s, w);
    DeficitAt(t, h, p, true);
    PaintWithin(t, p, s, w, false);
    PaintRight(s, false);
    var s1 := s.(right := Blacken(s.right));
    assert Has(s1, p);
    PaintWithin(t, p, s1, p, true);
    PaintTop(s1, true);
    var s2 := s1.(red := true);
    assert Has(s2, p);
    RotLWithin(t, p, s2, p);
    var r := RotL(s2);
    assert Replace(s2, p, r) == r;
    RedSiblingLeft(s, HeightAt(t, h, p));
    assert Has(s, r.elm);
    DeficitStays(t, h, p, true, r);
    assert p.key < w.key && Has(r.left, p) && Has(r, p) && At(r, p) == r.left;
    SubtreeBack(t, p, r, p);
  }

  lemma {:induction false} BlackNephewsTreeLeft(t: Tree, h: int, p: Elm)
    requires Bst(t) && DeficitLeft(t, h, p) && !Red(t) && Has(t, p) && At(t, p).right.Node? && !At(t, p).right.red
        && !Red(At(t, p).left)
    requires !Red(At(t, p).right.left) && !Red(At(t, p).right.right)
    ensures var w, q := At(t, p).right.elm, Parent(t, null, p); var t' := Paint(t, w, true);
      Has(t, w) && Spot(t', h, q, q != null && p.key < q.key, p)
          && (q != null ==> Has(t', q) && PathLen(t', q) < PathLen(t, p))
  {
    var s := At(t, p);
    var w := s.right.elm;
    AtIsSubtree(t, null, p, p);
    ReplaceSame(t, p);
    assert Has(s.right, w) && Has(s, w);
    DeficitAt(t, h, p, true);
    PaintWithin(t, p, s, w, true);
    PaintRight(s, true);
    var s' := s.(right := s.right.(red := true));
    BlackNephewsLeft(s, HeightAt(t, h, p));
    assert Has(s', p);
    SubtreeBack(t, p, s', p);
    DeficitAround(t, h, p, true);
    ShortPlaced(t, h, p, s');
  }

  lemma {:induction false} PaintDownLeft(s: Tree, j: Elm, red: bool)
    requires Bst(s) && s.Node? && Has(s.left, j)
    ensures Has(s, j) && j != s.elm && At(s, j) == At(s.left, j)
        && Paint(s, j, red) == s.(left := Paint(s.left, j, red))
  {
  }

  lemma {:induction false} NearNephewTreeLeft(t: Tree, h: int, p: Elm)
    requires Bst(t) && DeficitLeft(t, h, p) && !Red(t) && Has(t, p) && At(t, p).right.Node? && !At(t, p).right.red
    requires Red(At(t, p).right.left) && !Red(At(t, p).right.right)
    ensures var w, o := At(t, p).right.elm, At(t, p).right.left.elm;
        var t1 := Paint(t, o, false); var t2 := Paint(t1, w, true);
      && Has(t, o) && Has(t1, w) && Has(t2, w) && At(t2, w).left.Node? && var t3 := Replace(t2, w, RotR(At(t2, w)));
      && Bst(t3) && DeficitLeft(t3, h, p) && !Red(t3) && Has(t3, p) && At(t3, p).red == At(t, p).red
          && At(t3, p).left == At(t, p).left
      && At(t3, p).right.Node? && !At(t3, p).right.red && Red(At(t3, p).right.right)
  {
    var s := At(t, p);
    var w := s.right;
    var o := w.left.elm;
    AtIsSubtree(t, null, p, p);
    ReplaceSame(t, p);
    assert Has(w.left, o) && Has(w, o) && Has(w, w.elm);
    DeficitAt(t, h, p, true);
    PaintDownRight(s, o, false);
    PaintLeft(w, false);
    PaintWithin(t, p, s, o, false);
    var w1 := w.(left := Blacken(w.left));
    var s1 := s.(right := w1);
    assert Has(w1, w.elm);
    PaintDownRight(s1, w.elm, true);
    PaintTop(w1, true);
    PaintWithin(t, p, s1, w.elm, true);
    var w2 := w1.(red := true);
    var s2 := s.(right := w2);
    assert Has(w2, w.elm) && Has(s2, w.elm) && At(s2, w.elm) == w2;
    RotRWithin(t, p, s2, w.elm);
    assert Replace(w2, w.elm, RotR(w2)) == RotR(w2) && Replace(s2, w.elm, RotR(w2)) == s.(right := RotR(w2));
    NearNephewLeft(s, HeightAt(t, h, p));
    var r := s.(right := RotR(w2));
    assert Has(r, p);
    DeficitStays(t, h, p, true, r);
    SubtreeBack(t, p, r, p);
  }

  lemma {:induction false} FarNephewTreeLeft(t: Tree, h: int, p: Elm)
    requires Bst(t) && DeficitLeft(t, h, p) && !Red(t) && Has(t, p) && At(t, p).right.Node? && !At(t, p).right.red
    requires Red(At(t, p).right.right) && !Red(At(t, p).left)
    ensures var w, f := At(t, p).right.elm, At(t, p).right.right.elm;
        var t1 := Paint(t, w, At(t, p).red); var t2 := Paint(t1, p, false); var t3 := Paint(t2, f, false);
      && Has(t, w) && Has(t1, p) && Has(t2, f) && Has(t3, p) && At(t3, p).right.Node?
          && var t4 := Replace(t3, p, RotL(At(t3, p)));
      Bst(t4) && Balanced(t4, h, null) && !Red(t4)
  {
    var s := At(t, p);
    var w := s.right;
    var f := w.right.elm;
    AtIsSubtree(t, null, p, p);
    ReplaceSame(t, p);
    assert Has(w, w.elm) && Has(w.right, f) && Has(w, f);
    DeficitAt(t, h, p, true);
    PaintWithin(t, p, s, w.elm, s.red);
    PaintRight(s, s.red);
    var w1 := w.(red := s.red);
    var s1 := s.(right := w1);
    assert Has(s1, p);
    PaintWithin(t, p, s1, p, false);
    PaintTop(s1, false);
    var s2 := s1.(red := false);
    assert Has(w1.right, f) && Has(w1, f);
    PaintDownRight(s2, f, false);
    PaintRight(w1, false);
    PaintWithin(t, p, s2, f, false);
    var s3 := s2.(right := w1.(right := Blacken(w.right)));
    assert Has(s3, p);
    RotLWithin(t, p, s3, p);
    var r := RotL(s3);
    assert Replace(s3, p, r) == r;
    FarNephewLeft(s, HeightAt(t, h, p));
    DeficitEnds(t, h, p, true, r);
    assert Has(r, r.elm);
    SubtreeBack(t, p, r, r.elm);
  }

  lemma {:induction false} HasSiblingLeft(t: Tree, h: int, p: Elm)
    requires Bst(t) && DeficitLeft(t, h, p) && Has(t, p) && !Red(At(t, p).left)
    ensures At(t, p).right.Node?
  {
    DeficitAt(t, h, p, true);
    SiblingLeft(At(t, p), HeightAt(t, h, p));
  }

  /** The sibling of a short black subtree is a node. */
  lemma {:induction false} SiblingRight(s: Tree, h: int)
    requires s.Node? && DeficitRight(s, h, s.elm) && !Red(s.right)
    ensures s.left.Node?
  {
    var below := if s.red then h else h - 1;
    if s.right.Node? { HeightNonNegative(s.right, below - 1, null); }
  }

  /** Case 1, red sibling: rotate it up; the short side gets a black sibling. */
  lemma {:induction false} RedSiblingRight(s: Tree, h: int)
    requires Bst(s) && s.Node? && DeficitRight(s, h, s.elm) && Red(s.left)
    ensures var s' := RotR(s.(red := true, left := Blacken(s.left)));
      DeficitRight(s', h, s.elm) && !Red(s') && !s.red && s'.right.elm == s.elm && s'.right.red
          && s'.right.right == s.right && !Red(s'.right.left)
  {
    var s' := RotR(s.(red := true, left := Blacken(s.left)));
    assert Has(s.left, s.left.elm);
    assert DeficitRight(s'.right, h - 1, s.elm);
  }

  /** Case 2, black sibling with black children: it turns red and the whole subtree is short. */
  lemma {:induction false} BlackNephewsRight(s: Tree, h: int)
    requires s.Node? && DeficitRight(s, h, s.elm) && s.left.Node? && !s.left.red && !Red(s.right)
        && !Red(s.left.right) && !Red(s.left.left)
    ensures Short(s.(left := s.left.(red := true)), h)
  {
  }

  /** Case 3, only the near nephew red: rotate it up to get a far red nephew. */
  lemma {:induction false} NearNephewRight(s: Tree, h: int)
    requires s.Node? && DeficitRight(s, h, s.elm) && s.left.Node? && !s.left.red && Red(s.left.right)
        && !Red(s.left.left)
    ensures var w := RotL(s.left.(red := true, right := Blacken(s.left.right)));
      DeficitRight(s.(left := w), h, s.elm) && !w.red && Red(w.left)
  {
    var below, w0 := if s.red then h else h - 1, s.left;
    assert Balanced(w0.right, below - 1, null) && Balanced(w0.left, below - 1, null);
    assert Balanced(w0.right.right, below - 1, null) && Balanced(w0.right.left, below - 1, null);
    var w := RotL(w0.(red := true, right := Blacken(w0.right)));
    assert Balanced(w.left, below - 1, null);
  }

  /** Case 4, far nephew red: one rotation restores the balance. */
  lemma {:induction false} FarNephewRight(s: Tree, h: int)
    requires s.Node? && DeficitRight(s, h, s.elm) && s.left.Node? && !s.left.red && !Red(s.right) && Red(s.left.left)
    ensures var s' := RotR(s.(red := false, left := s.left.(red := s.red, left := Blacken(s.left.left))));
      Balanced(s', h, null) && s'.red == s.red
  {
    var below, w := if s.red then h else h - 1, s.left;
    assert Balanced(w.right, below - 1, null) && Balanced(w.left, below - 1, null);
    assert Balanced(w.left.right, below - 1, null) && Balanced(w.left.left, below - 1, null);
    assert Balanced(Blacken(w.left), below, null);
    var s' := RotR(s.(red := false, left := w.(red := s.red, left := Blacken(w.left))));
    assert Balanced(s'.right, below, null);
  }

  lemma {:induction false} RotRWithin(t: Tree, p: Elm, s: Tree, j: Elm)
    requires Bst(t) && Has(t, p) && Bst(s) && Elems(s) == Elems(At(t, p)) && Has(s, j) && At(s, j).left.Node?
    ensures var s' := Replace(s, j, RotR(At(s, j)));
      && Has(Replace(t, p, s), j) && At(Replace(t, p, s), j) == At(s, j)
      && Replace(Replace(t, p, s), j, RotR(At(s, j))) == Replace(t, p, s') && Bst(s') && Elems(s') == Elems(s)
  {
    AtIsSubtree(t, null, p, p);
    HasElems(s, j);
    HasElems(At(t, p), j);
    Nested(t, p, s, j, RotR(At(s, j)));
    SubtreeBack(t, p, s, j);
    RotRTree(s, j);
  }

  lemma {:induction false} RedSiblingTreeRight(t: Tree, h: int, p: Elm)
    requires Bst(t) && DeficitRight(t, h, p) && !Red(t) && Has(t, p) && Red(At(t, p).left)
    ensures var w := At(t, p).left.elm; var t1 := Paint(t, w, false); var t2 := Paint(t1, p, true);
      && Has(t, w) && Has(t1, p) && Has(t2, p) && At(t2, p).left.Node? && var t3 := Replace(t2, p, RotR(At(t2, p)));
      Bst(t3) && DeficitRight(t3, h, p) && !Red(t3) && Has(t3, p) && At(t3, p).red
          && At(t3, p).right == At(t, p).right && !Red(At(t3, p).left)
  {
    var s := At(t, p);
    var w := s.left.elm;
    AtIsSubtree(t, null, p, p);
    ReplaceSame(t, p);
    assert Has(s.left, w) && Has(s, w);
    DeficitAt(t, h, p, false);
    PaintWithin(t, p, s, w, false);
    PaintLeft(s, false);
    var s1 := s.(left := Blacken(s.left));
    assert Has(s1, p);
    PaintWithin(t, p, s1, p, true);
    PaintTop(s1, true);
    var s2 := s1.(red := true);
    assert Has(s2, p);
    RotRWithin(t, p, s2, p);
    var r := RotR(s2);
    assert Replace(s2, p, r) == r;
    RedSiblingRight(s, HeightAt(t, h, p));
    assert Has(s, r.elm);
    DeficitStays(t, h, p, false, r);
    assert p.key > w.key && Has(r.right, p) && Has(r, p) && At(r, p) == r.right;
    SubtreeBack(t, p, r, p);
  }

  lemma {:induction false} BlackNephewsTreeRight(t: Tree, h: int, p: Elm)
    requires Bst(t) && DeficitRight(t, h, p) && !Red(t) && Has(t, p) && At(t, p).left.Node? && !At(t, p).left.red
        && !Red(At(t, p).right)
    requires !Red(At(t, p).left.right) && !Red(At(t, p).left.left)
    ensures var w, q := At(t, p).left.elm, Parent(t, null, p); var t' := Paint(t, w, true);
      Has(t, w) && Spot(t', h, q, q != null && p.key < q.key, p)
          && (q != null ==> Has(t', q) && PathLen(t', q) < PathLen(t, p))
  {
    var s := At(t, p);
    var w := s.left.elm;
    AtIsSubtree(t, null, p, p);
    ReplaceSame(t, p);
    assert Has(s.left, w) && Has(s, w);
    DeficitAt(t, h, p, false);
    PaintWithin(t, p, s, w, true);
    PaintLeft(s, true);
    var s' := s.(left := s.left.(red := true));
    BlackNephewsRight(s, HeightAt(t, h, p));
    assert Has(s', p);
    SubtreeBack(t, p, s', p);
    DeficitAround(t, h, p, false);
    ShortPlaced(t, h, p, s');
  }

  lemma {:induction false} PaintDownRight(s: Tree, j: Elm, red: bool)
    requires Bst(s) && s.Node? && Has(s.right, j)
    ensures Has(s, j) && j != s.elm && At(s, j) == At(s.right, j)
        && Paint(s, j, red) == s.(right := Paint(s.right, j, red))
  {
  }

  lemma {:induction false} NearNephewTreeRight(t: Tree, h: int, p: Elm)
    requires Bst(t) && DeficitRight(t, h, p) && !Red(t) && Has(t, p) && At(t, p).left.Node? && !At(t, p).left.red
    requires Red(At(t, p).left.right) && !Red(At(t, p).left.left)
    ensures var w, o := At(t, p).left.elm, At(t, p).left.right.elm;
        var t1 := Paint(t, o, false); var t2 := Paint(t1, w, true);
      && Has(t, o) && Has(t1, w) && Has(t2, w) && At(t2, w).right.Node? && var t3 := Replace(t2, w, RotL(At(t2, w)));
      && Bst(t3) && DeficitRight(t3, h, p) && !Red(t3) && Has(t3, p) && At(t3, p).red == At(t, p).red
          && At(t3, p).right == At(t, p).right
      && At(t3, p).left.Node? && !At(t3, p).left.red && Red(At(t3, p).left.left)
  {
    var s := At(t, p);
    var w := s.left;
    var o := w.right.elm;
    AtIsSubtree(t, null, p, p);
    ReplaceSame(t, p);
    assert Has(w.right, o) && Has(w, o) && Has(w, w.elm);
    DeficitAt(t, h, p, false);
    PaintDownLeft(s, o, false);
    PaintRight(w, false);
    PaintWithin(t, p, s, o, false);
    var w1 := w.(right := Blacken(w.right));
    var s1 := s.(left := w1);
    assert Has(w1, w.elm);
    PaintDownLeft(s1, w.elm, true);
    PaintTop(w1, true);
    PaintWithin(t, p, s1, w.elm, true);
    var w2 := w1.(red := true);
    var s2 := s.(left := w2);
    assert Has(w2, w.elm) && Has(s2, w.elm) && At(s2, w.elm) == w2;
    RotLWithin(t, p, s2, w.elm);
    assert Replace(w2, w.elm, RotL(w2)) == RotL(w2) && Replace(s2, w.elm, RotL(w2)) == s.(left := RotL(w2));
    NearNephewRight(s, HeightAt(t, h, p));
    var r := s.(left := RotL(w2));
    assert Has(r, p);
    DeficitStays(t, h, p, false, r);
    SubtreeBack(t, p, r, p);
  }

  lemma {:induction false} FarNephewTreeRight(t: Tree, h: int, p: Elm)
    requires Bst(t) && DeficitRight(t, h, p) && !Red(t) && Has(t, p) && At(t, p).left.Node? && !At(t, p).left.red
    requires Red(At(t, p).left.left) && !Red(At(t, p).right)
    ensures var w, f := At(t, p).left.elm, At(t, p).left.left.elm;
        var t1 := Paint(t, w, At(t, p).red); var t2 := Paint(t1, p, false); var t3 := Paint(t2, f, false);
      && Has(t, w) && Has(t1, p) && Has(t2, f) && Has(t3, p) && At(t3, p).left.Node?
          && var t4 := Replace(t3, p, RotR(At(t3, p)));
      Bst(t4) && Balanced(t4, h, null) && !Red(t4)
  {
    var s := At(t, p);
    var w := s.left;
    var f := w.left.elm;
    AtIsSubtree(t, null, p, p);
    ReplaceSame(t, p);
    assert Has(w, w.elm) && Has(w.left, f) && Has(w, f);
    DeficitAt(t, h, p, false);
    PaintWithin(t, p, s, w.elm, s.red);
    PaintLeft(s, s.red);
    var w1 := w.(red := s.red);
    var s1 := s.(left := w1);
    assert Has(s1, p);
    PaintWithin(t, p, s1, p, false);
    PaintTop(s1, false);
    var s2 := s1.(red := false);
    assert Has(w1.left, f) && Has(w1, f);
    PaintDownLeft(s2, f, false);
    PaintLeft(w1, false);
    PaintWithin(t, p, s2, f, false);
    var s3 := s2.(left := w1.(left := Blacken(w.left)));
    assert Has(s3, p);
    RotRWithin(t, p, s3, p);
    var r := RotR(s3);
    assert Replace(s3, p, r) == r;
    FarNephewRight(s, HeightAt(t, h, p));
    DeficitEnds(t, h, p, false, r);
    assert Has(r, r.elm);
    SubtreeBack(t, p, r, r.elm);
  }

  lemma {:induction false} HasSiblingRight(t: Tree, h: int, p: Elm)
    requires Bst(t) && DeficitRight(t, h, p) && Has(t, p) && !Red(At(t, p).right)
    ensures At(t, p).left.Node?
  {
    DeficitAt(t, h, p, false);
    SiblingRight(At(t, p), HeightAt(t, h, p));
  }

  lemma {:induction false} ChildNotRoot(t: Tree, p: Elm, x: Elm)
    requires Bst(t) && Has(t, p) && (Root(At(t, p).left) == x || Root(At(t, p).right) == x)
    ensures x != t.elm
  {
    var s := At(t, p);
    AtIsSubtree(t, null, p, p);
    assert s.left.Node? ==> Has(s.left, s.left.elm);
    assert s.right.Node? ==> Has(s.right, s.right.elm);
    if p != t.elm { StrictlyBelow(t, p, x); }
  }

  lemma {:induction false} BlackenShort(t: Tree, h: int, done: bool)
    requires t.Node? && if done then Balanced(t, h, null) && !Red(t) else Short(t, h)
    ensures !Red(Paint(t, t.elm, false))
        && Balanced(Paint(t, t.elm, false), if !done && !Red(t) then h - 1 else h, null)
  {
  }

  /** The short child is the one the code takes it for. */
  lemma {:induction false} SpotSide(t: Tree, h: int, p: Elm, onLeft: bool, x: Elm?)
    requires Spot(t, h, p, onLeft, x) && !Red(if onLeft then At(t, p).left else At(t, p).right)
    ensures Root(At(t, p).left) == x <==> onLeft
  {
    var s := At(t, p);
    AtIsSubtree(t, null, p, p);
    DeficitAt(t, h, p, onLeft);
    if onLeft { SiblingLeft(s, HeightAt(t, h, p)); } else { SiblingRight(s, HeightAt(t, h, p)); }
    assert s.left.Node? ==> Has(s.left, s.left.elm);
    assert s.right.Node? ==> Has(s.right, s.right.elm);
  }

  /** Blackening the short child, or the short tree, or nothing at all, ends the repair. */
  lemma {:induction false} DeficitPainted(t: Tree, h: int, p: Elm, onLeft: bool, x: Elm)
    requires Bst(t) && Deficit(t, h, p, onLeft) && Has(t, p) && var c := if onLeft then At(t, p).left
        else At(t, p).right; c.Node? && c.red && c.elm == x
    ensures Has(t, x) && x != t.elm && Balanced(Paint(t, x, false), h, null) && (Red(Paint(t, x, false)) ==> Red(t))
  {
    assert t.left.Node? ==> Has(t.left, t.left.elm);
    assert t.right.Node? ==> Has(t.right, t.right.elm);
    if p == t.elm {
      if onLeft { PaintLeft(t, false); } else { PaintRight(t, false); }
    } else {
      var c := if p.key < t.elm.key then t.left else t.right;
      DeficitPainted(c, if t.red then h else h - 1, p, onLeft, x);
      if p.key < t.elm.key { PaintDownLeft(t, x, false); } else { PaintDownRight(t, x, false); }
    }
  }

  // ---------- Unlinking and replacing a node ----------

  /** Nodes outside a subtree are on the same side of all its nodes. */
  lemma {:induction false} Outside(t: Tree, p: Elm, x: Elm, y: Elm)
    requires Bst(t) && Has(t, p) && Has(t, x) && !Has(At(t, p), x) && Has(At(t, p), y)
    ensures (x.key < p.key <==> x.key < y.key) && x.key != y.key && x.key != p.key
  {
    var c := if p.key < t.elm.key then t.left else t.right;
    AtIsSubtree(c, null, p, y);
    if Has(c, x) { Outside(c, p, x, y); }
  }

  ghost function SpliceRows(rows: map<Elm, Row>, m: Elm, c: Elm?, p: Elm?): map<Elm, Row> {
    map j | j in rows && j != m ::
      var r := rows[j];
          if j == c then r.(parent := p) else if j != p then r else if r.left == m then r.(left := c)
          else r.(right := c)
  }

  ghost predicate LacksChild(t: Tree, m: Elm, c: Tree)
    requires Has(t, m)
  {
    (At(t, m).left.Leaf? && c == At(t, m).right) || (At(t, m).right.Leaf? && c == At(t, m).left)
  }

  lemma {:induction false} SpliceTree(t: Tree, m: Elm, c: Tree)
    requires Bst(t) && Has(t, m) && LacksChild(t, m, c)
    ensures Bst(Replace(t, m, c)) && m in Elems(t) && Elems(Replace(t, m, c)) == Elems(t) - {m}
    ensures c.Node? ==> Has(At(t, m), c.elm) && c.elm != m
  {
    var s := At(t, m);
    HasElems(t, m);
    AtIsSubtree(t, null, m, m);
    assert c.Node? ==> Has(c, c.elm);
    forall i | Has(c, i) ensures Has(s, i) && i != m {}
    ReplaceBst(t, m, c);
    ReplaceElems(t, m, c);
    ElemsApart(s);
  }

  lemma {:induction false} SpliceRow(t: Tree, rows: map<Elm, Row>, m: Elm, c: Tree, j: Elm)
    requires Bst(t) && Has(t, m) && LacksChild(t, m, c) && j in rows && j != m && Has(t, j)
        && rows[j] == RowOf(t, null, j)
    requires c.Node? ==> Has(At(t, m), c.elm)
    ensures Has(Replace(t, m, c), j)
        && RowOf(Replace(t, m, c), null, j) == SpliceRows(rows, m, Root(c), Parent(t, null, m))[j]
  {
    var s, p := At(t, m), Parent(t, null, m);
    ParentRow(t, m);
    if Has(s, j) {
      SpliceInside(t, m, c, j);
    } else {
      ReplaceOutside(t, null, m, c, j);
    }
  }

  lemma {:induction false} SpliceInside(t: Tree, m: Elm, c: Tree, j: Elm)
    requires Bst(t) && Has(t, m) && LacksChild(t, m, c) && j != m && Has(At(t, m), j)
    ensures Has(t, j) && Has(Replace(t, m, c), j)
    ensures RowOf(Replace(t, m, c), null, j) == if j == Root(c) then RowOf(t, null, j).(parent := Parent(t, null, m))
        else RowOf(t, null, j)
  {
    AtIsSubtree(t, null, m, j);
    Descend(At(t, m), Parent(t, null, m), j);
    ReplaceInside(t, null, m, c, j);
    Reparent(c, m, Parent(t, null, m), j);
  }

  /** Dropping a node that lacks a child. */
  lemma {:induction false} SpliceShape(t: Tree, rows: map<Elm, Row>, m: Elm, c: Tree)
    requires Shape(t, rows) && Has(t, m) && LacksChild(t, m, c)
    ensures Shape(Replace(t, m, c), SpliceRows(rows, m, Root(c), Parent(t, null, m)))
    ensures Root(Replace(t, m, c)) == if Parent(t, null, m) == null then Root(c) else Root(t)
  {
    var p, t' := Parent(t, null, m), Replace(t, m, c);
    SpliceTree(t, m, c);
    ParentRow(t, m);
    forall j | Look(j) && j in SpliceRows(rows, m, Root(c), p)
        ensures Has(t', j) && RowOf(t', null, j) == SpliceRows(rows, m, Root(c), p)[j]
    {
      SpliceRow(t, rows, m, c, j);
    }
  }

  /** Where the balance is missing after that. */
  lemma {:induction false} SpliceSpot(t: Tree, h: int, m: Elm, c: Tree)
    requires Bst(t) && Balanced(t, h, null) && !Red(t) && Has(t, m)
    requires LacksChild(t, m, c)
    ensures var t', p := Replace(t, m, c), Parent(t, null, m);
      if At(t, m).red then Balanced(t', h, null) && !Red(t')
          else Bst(t') ==> Spot(t', h, p, p != null && m.key < p.key, Root(c))
  {
    var s, p := At(t, m), Parent(t, null, m);
    BalancedAt(t, h, null, m);
    var hm := HeightAt(t, h, m);
    if s.red {
      if c.Node? { HeightNonNegative(c, hm, null); }
      SpliceRed(t, h, m, c);
    } else {
      assert Short(c, hm);
      BalancedAround(t, h, m);
      ParentHolds(t, null, m);
      if p != null {
        ShortBelow(t, null, h, m, c);
        ReplaceOutside(t, null, m, c, p);
      }
    }
  }

  lemma {:induction false} HasElemsRoot(t: Tree, m: Elm, c: Tree)
    requires Bst(t) && Has(t, m) && LacksChild(t, m, c)
    ensures var p := Parent(t, null, m);
        p != m && (c.Node? ==> c.elm in Elems(t) && c.elm != m && c.elm != p) && (p != null ==> p in Elems(t))
  {
    SpliceTree(t, m, c);
    ParentRow(t, m);
    ParentHolds(t, null, m);
    if c.Node? { AtIsSubtree(t, null, m, c.elm); HasElems(t, c.elm); }
    assert Has(At(t, m), m);
  }

  ghost function Ren(x: Elm?, a: Elm, b: Elm): Elm? { if x == a then b else x }

  ghost function Rename(t: Tree, a: Elm, b: Elm): Tree {
    match t
    case Leaf => Leaf
    case Node(red, l, n, r) => Node(red, Rename(l, a, b), if n == a then b else n, Rename(r, a, b))
  }

  /** The key of `b` has the place of the key of `a` in the order. */
  ghost predicate Fits(t: Tree, a: Elm, b: Elm) {
    b !in Elems(t) && forall x <- Elems(t) ::
        x != a ==> (x.key < a.key <==> x.key < b.key) && (x.key > a.key <==> x.key > b.key)
  }

  lemma {:induction false} RenameElems(t: Tree, a: Elm, b: Elm)
    requires Bst(t)
    ensures Elems(Rename(t, a, b)) == if a in Elems(t) then Elems(t) - {a} + {b} else Elems(t)
  {
    if t.Node? {
      RenameElems(t.left, a, b);
      RenameElems(t.right, a, b);
      ElemsApart(t);
    }
  }

  lemma {:induction false} RenameBst(t: Tree, a: Elm, b: Elm)
    requires Bst(t) && Fits(t, a, b)
    ensures Bst(Rename(t, a, b))
  {
    if t.Node? {
      RenameBst(t.left, a, b);
      RenameBst(t.right, a, b);
      RenameElems(t.left, a, b);
      RenameElems(t.right, a, b);
      ElemsApart(t);
      var n := if t.elm == a then b else t.elm;
      forall x | Has(Rename(t.left, a, b), x) ensures x.key < n.key {
        HasElems(Rename(t.left, a, b), x);
        HasElems(t.left, x);
        HasElems(t.left, a);
      }
      forall x | Has(Rename(t.right, a, b), x) ensures n.key < x.key {
        HasElems(Rename(t.right, a, b), x);
        HasElems(t.right, x);
        HasElems(t.right, a);
      }
    }
  }

  lemma {:induction false} RenameRow(t: Tree, above: Elm?, a: Elm, b: Elm, j: Elm)
    requires Bst(t) && Fits(t, a, b) && Has(t, j)
    ensures var t', j' := Rename(t, a, b), if j == a then b else j;
      && Has(t', j') && At(t', j') == Rename(At(t, j), a, b)
          && Parent(t', Ren(above, a, b), j') == Ren(Parent(t, above, j), a, b)
  {
    HasElems(t, j);
    if j != t.elm {
      var c := if j.key < t.elm.key then t.left else t.right;
      HasElems(c, j);
      RenameRow(c, t.elm, a, b, j);
    }
  }

  lemma {:induction false} RenameBalanced(t: Tree, h: int, a: Elm, b: Elm)
    ensures Balanced(Rename(t, a, b), h, null) <==> Balanced(t, h, null)
    ensures Red(Rename(t, a, b)) <==> Red(t)
  {
    if t.Node? {
      RenameBalanced(t.left, if t.red then h else h - 1, a, b);
      RenameBalanced(t.right, if t.red then h else h - 1, a, b);
    }
  }

  lemma {:induction false} RenameShort(t: Tree, h: int, a: Elm, b: Elm)
    requires Short(t, h)
    ensures Short(Rename(t, a, b), h)
  {
    RenameBalanced(t, h - 1, a, b);
    RenameBalanced(Blacken(t), h, a, b);
  }

  lemma {:induction false} RenameDeficit(t: Tree, h: int, p: Elm, onLeft: bool, a: Elm, b: Elm)
    requires Bst(t) && Fits(t, a, b) && Deficit(t, h, p, onLeft) && Has(t, p)
    ensures Deficit(Rename(t, a, b), h, if p == a then b else p, onLeft)
  {
    var below := if t.red then h else h - 1;
    HasElems(t, p);
    RenameBalanced(t.left, below, a, b);
    RenameBalanced(t.right, below, a, b);
    if p == t.elm {
      RenameShort(if onLeft then t.left else t.right, below, a, b);
    } else {
      var c := if p.key < t.elm.key then t.left else t.right;
      HasElems(c, p);
      RenameDeficit(c, below, p, onLeft, a, b);
      ElemsApart(t);
    }
  }

  ghost function RenameRows(rows: map<Elm, Row>, a: Elm, b: Elm): map<Elm, Row>
    requires a in rows
  {
    map j | j in rows.Keys - {a} + {b} ::
      var r := rows[if j == b then a else j]; Row(r.red, Ren(r.left, a, b), Ren(r.right, a, b), Ren(r.parent, a, b))
  }

  lemma {:induction false} RenameShape(t: Tree, rows: map<Elm, Row>, a: Elm, b: Elm)
    requires Shape(t, rows) && a in rows && Fits(t, a, b)
    ensures Shape(Rename(t, a, b), RenameRows(rows, a, b)) && Root(Rename(t, a, b)) == Ren(Root(t), a, b)
  {
    RenameBst(t, a, b);
    RenameElems(t, a, b);
    var t', rows' := Rename(t, a, b), RenameRows(rows, a, b);
    forall j: Elm | Look(j) && j in rows' ensures Has(t', j) && rows'[j] == RowOf(t', null, j) {
      var i := if j == b then a else j;
      assert Look(i);
      RenameRow(t, null, a, b, i);
    }
  }

  /** Only the parent and the children of a node have links to it. */
  ghost predicate Neighbours(rows: map<Elm, Row>, a: Elm) {
    && a in rows && rows[a].left != a && rows[a].right != a && rows[a].parent != a
    && (rows[a].parent != null ==>
        rows[a].parent in rows && rows[a].parent != rows[a].left && rows[a].parent != rows[a].right)
    && (rows[a].left != null ==> rows[a].left in rows && rows[a].left != rows[a].right)
        && (rows[a].right != null ==> rows[a].right in rows)
    && forall j <- rows.Keys :: j != a ==>
          && (rows[j].left == a || rows[j].right == a <==> j == rows[a].parent)
          && (rows[j].parent == a <==> j == rows[a].left || j == rows[a].right)
          && !(rows[j].left == a && rows[j].right == a)
  }

  ghost function RenamedRow(r: Row, j: Elm, a: Row, gone: Elm, b: Elm): Row {
    if j == a.parent then if r.left == gone then r.(left := b) else r.(right := b)
    else if j == a.left || j == a.right then r.(parent := b)
    else r
  }

  lemma {:induction false} RenamedRows(rows: map<Elm, Row>, a: Elm, b: Elm)
    requires Neighbours(rows, a) && b !in rows
    ensures RenameRows(rows, a, b)[b] == rows[a]
    ensures forall j <- rows.Keys :: j != a ==> RenameRows(rows, a, b)[j] == RenamedRow(rows[j], j, rows[a], a, b)
  {
    forall j | j in rows && j != a ensures RenameRows(rows, a, b)[j] == RenamedRow(rows[j], j, rows[a], a, b) {
      var r := rows[j];
      assert RenameRows(rows, a, b)[j] == Row(r.red, Ren(r.left, a, b), Ren(r.right, a, b), Ren(r.parent, a, b));
      assert r.left == a || r.right == a <==> j == rows[a].parent;
      assert r.parent == a <==> j == rows[a].left || j == rows[a].right;
    }
  }

  lemma {:induction false} NeighboursOf(t: Tree, rows: map<Elm, Row>, a: Elm)
    requires Shape(t, rows) && a in rows
    ensures Neighbours(rows, a)
  {
    assert Look(a);
    OwnLinks(t, a);
    forall j | j in rows && j != a
      ensures (rows[j].left == a || rows[j].right == a <==> j == rows[a].parent)
          && (rows[j].parent == a <==> j == rows[a].left || j == rows[a].right)
      ensures !(rows[j].left == a && rows[j].right == a)
    {
      assert Look(j);
      Mentions(t, a, j);
      Mentions(t, j, a);
    }
  }

  lemma {:induction false} OwnLinks(t: Tree, a: Elm)
    requires Bst(t) && Has(t, a)
    ensures var r := RowOf(t, null, a);
      && r.left != a && r.right != a && r.parent != a
      && (r.parent != null ==> r.parent in Elems(t) && r.parent != r.left && r.parent != r.right)
      && (r.left != null ==> r.left in Elems(t) && r.left != r.right) && (r.right != null ==> r.right in Elems(t))
  {
    ChildElems(t, a);
    ParentRow(t, a);
    AtIsSubtree(t, null, a, a);
    var s := At(t, a);
    assert s.left.Node? ==> Has(s.left, s.left.elm) && Has(s, s.left.elm);
    assert s.right.Node? ==> Has(s.right, s.right.elm) && Has(s, s.right.elm);
  }

  /** A child link one way is a parent link the other way. */
  lemma {:induction false} Mentions(t: Tree, a: Elm, j: Elm)
    requires Bst(t) && Has(t, a) && Has(t, j) && j != a
    ensures var r := RowOf(t, null, j);
        (r.left == a || r.right == a <==> RowOf(t, null, a).parent == j) && !(r.left == a && r.right == a)
  {
    AtIsSubtree(t, null, j, a);
    AtIsSubtree(t, null, j, j);
    var s := At(t, j);
    assert s.left.Node? ==> Has(s.left, s.left.elm) && Has(s, s.left.elm);
    assert s.right.Node? ==> Has(s.right, s.right.elm) && Has(s, s.right.elm);
    if s.left.Node? && s.left.elm == a { Descend(s, Parent(t, null, j), a); }
    if s.right.Node? && s.right.elm == a { Descend(s, Parent(t, null, j), a); }
    ParentHolds(t, null, a);
  }

  /** `m` is the least node right of `old`, which has both children. */
  ghost predicate IsSuccessor(t: Tree, old': Elm, m: Elm)
    requires Has(t, old')
  {
    Has(At(t, old').right, m) && Has(t, m) && At(t, m).left.Leaf? && forall x <- Elems(At(t, old').right) ::
        x == m || x.key > m.key
  }

  /** The successor, once unlinked, has the removed node's place in the order. */
  lemma {:induction false} SuccessorFits(t: Tree, a: Elm, m: Elm, c: Tree)
    requires Bst(t) && Has(t, a) && IsSuccessor(t, a, m) && LacksChild(t, m, c)
    ensures a != m && Fits(Replace(t, m, c), a, m) && a in Elems(Replace(t, m, c))
  {
    var s := At(t, a);
    SpliceTree(t, m, c);
    AtIsSubtree(t, null, a, m);
    HasElems(t, a);
    assert Has(s, m) && m.key > a.key;
    forall x | x in Elems(Replace(t, m, c)) && x != a
        ensures (x.key < a.key <==> x.key < m.key) && (x.key > a.key <==> x.key > m.key)
    {
      HasElems(t, x);
      if !Has(s, x) {
        Outside(t, a, x, m);
      } else {
        Descend(s, null, x);
        if x.key > a.key { HasElems(s.right, x); }
      }
    }
  }

  lemma {:induction false} KeepsLeftChild(t: Tree, a: Elm, m: Elm, c: Tree)
    requires Bst(t) && Has(t, a) && IsSuccessor(t, a, m) && LacksChild(t, m, c)
    ensures Has(Replace(t, m, c), a) && RowOf(Replace(t, m, c), null, a).left == RowOf(t, null, a).left
    ensures Parent(t, null, m) != null && (c.Node? ==> c.elm != a)
  {
    var s := At(t, a);
    SpliceTree(t, m, c);
    AtIsSubtree(t, null, a, m);
    assert Has(s, m) && m.key > a.key;
    AtIsSubtree(t, null, m, a);
    NotBelow(t, a, m);
    ReplaceOutside(t, null, m, c, a);
    ParentHolds(t, null, m);
  }

  lemma {:induction false} NotBelow(t: Tree, a: Elm, m: Elm)
    requires Bst(t) && Has(t, a) && Has(At(t, a), m) && m != a && Has(t, m)
    ensures !Has(At(t, m), a) && m != t.elm
  {
    AtIsSubtree(t, null, a, m);
    if a != t.elm {
      var c := if a.key < t.elm.key then t.left else t.right;
      AtIsSubtree(c, null, a, m);
      NotBelow(c, a, m);
    } else {
      var c := if m.key < t.elm.key then t.left else t.right;
      Descend(t, null, m);
      if Has(At(t, m), a) { AtIsSubtree(c, null, m, a); }
    }
  }

  lemma {:induction false} NarrowMin(r: Tree, e: Elm, x: Elm)
    requires Bst(r) && Has(r, e) && At(r, e).left.Node? && (Has(At(r, e), x) || x.key > e.key)
    ensures Has(At(r, e).left, x) || x.key > At(r, e).left.elm.key
  {
    var s := At(r, e);
    AtIsSubtree(r, null, e, e);
    assert Has(s.left, s.left.elm);
    if Has(s, x) && x != e { Descend(s, null, x); }
  }

  lemma {:induction false} RenameSpot(t: Tree, h: int, p: Elm, onLeft: bool, x: Elm?, a: Elm, b: Elm)
    requires Spot(t, h, p, onLeft, x) && Fits(t, a, b) && x != a
    ensures Bst(Rename(t, a, b)) ==> Spot(Rename(t, a, b), h, Ren(p, a, b), onLeft, x)
  {
    RenameDeficit(t, h, p, onLeft, a, b);
    RenameBalanced(t, h, a, b);
    RenameRow(t, null, a, b, p);
  }

  // ---------- Neighbours in the order ----------

  lemma {:induction false} SidesOrdered(t: Tree)
    requires Bst(t) && t.Node?
    ensures (forall y <- Elems(t.left) :: y.key < t.elm.key) && (forall y <- Elems(t.right) :: t.elm.key < y.key)
  {
    forall y | y in Elems(t.left) ensures y.key < t.elm.key { HasElems(t.left, y); }
    forall y | y in Elems(t.right) ensures t.elm.key < y.key { HasElems(t.right, y); }
  }

  lemma {:induction false} OneKey(t: Tree, x: Elm, y: Elm)
    requires Bst(t) && Has(t, x) && Has(t, y) && x.key == y.key
    ensures x == y
  {
    if x != t.elm && y != t.elm { OneKey(if x.key < t.elm.key then t.left else t.right, x, y); }
  }

  lemma {:induction false} SuccessorFirst(t: Tree, a: Elm, m: Elm, x: Elm)
    requires Bst(t) && Has(t, a) && IsSuccessor(t, a, m) && x in Elems(t) && x.key > a.key
    ensures m.key <= x.key
  {
    var s := At(t, a);
    AtIsSubtree(t, null, a, a);
    HasElems(t, x);
    assert m.key > a.key && Has(s, m);
    if Has(s, x) {
      Descend(s, null, x);
      HasElems(s.right, x);
    } else {
      Outside(t, a, x, m);
    }
  }

  lemma {:induction false} ClimbRight(t: Tree, e: Elm, p: Elm, e0: Elm)
    requires Bst(t) && Has(t, e) && p == Parent(t, null, e) && Has(t, p) && Root(At(t, p).right) == e
        && At(t, p).right == At(t, e)
    requires Has(At(t, e), e0) && forall x <- Elems(At(t, e)) :: x.key <= e0.key
    ensures Has(At(t, p), e0) && forall x <- Elems(At(t, p)) :: x.key <= e0.key
  {
    var s := At(t, p);
    AtIsSubtree(t, null, p, p);
    SidesOrdered(s);
    assert Has(s.right, e0) && e0.key > p.key;
  }

  /** A climb from the left: the node above comes after everything below. */
  lemma {:induction false} ClimbLeft(t: Tree, e: Elm, p: Elm, e0: Elm)
    requires Bst(t) && Has(t, e) && p == Parent(t, null, e) && Has(At(t, e), e0)
    requires Has(t, p) && Root(At(t, p).right) != e
    ensures At(t, p).left == At(t, e) && p.key > e0.key && Has(At(t, p), e0)
  {
    ParentHolds(t, null, e);
    ParentRow(t, e);
    AtIsSubtree(t, null, p, p);
  }

  lemma {:induction false} PastLeft(s: Tree, e0: Elm, x: Elm)
    requires Bst(s) && s.Node? && (forall y <- Elems(s.left) :: y.key <= e0.key) && Has(s, x) && x.key > e0.key
    ensures s.elm.key <= x.key
  {
    if x.key < s.elm.key { HasElems(s.left, x); }
  }

  /** The climb has passed everything up to `e0`; nothing lies between it and the node above. */
  lemma {:induction false} Climbed(t: Tree, p: Elm, e0: Elm, x: Elm)
    requires Bst(t) && Has(t, p) && Has(At(t, p), e0) && e0.key < p.key
        && (forall y <- Elems(At(t, p).left) :: y.key <= e0.key)
    requires Has(t, x) && x.key > e0.key
    ensures p.key <= x.key
  {
    if Has(At(t, p), x) {
      AtIsSubtree(t, null, p, p);
      PastLeft(At(t, p), e0, x);
    } else {
      Outside(t, p, x, e0);
    }
  }

  // ---------- The linked structure ----------

  class Head {
    var root: Elm?
    ghost var tree: Tree
    ghost var rows: map<Elm, Row>

    /** The fields of every node are its row. */
    ghost predicate Table()
      reads this`rows, rows.Keys
    {
      forall e <- rows.Keys :: Fields(e) == rows[e]
    }

    ghost predicate Wired()
      reads this, rows.Keys
    {
      root == Root(tree) && Table() && Shape(tree, rows)
    }

    /** RB_ROTATE_LEFT on the node objects. */
    method TurnLeft(elm: Elm) returns (tmp: Elm, ghost b: Elm?, ghost p: Elm?)
      requires elm.right != null && elm.right != elm && elm.right.left != elm && elm.right.left != elm.right
      requires elm.parent != elm && elm.parent != elm.right && (elm.parent != null ==> elm.parent != elm.right.left)
      modifies this`root, elm, elm.right, if elm.right.left == null then {} else {elm.right.left}
      modifies if elm.parent == null then {} else {elm.parent}
      ensures tmp == old(elm.right) && b == old(elm.right.left) && p == old(elm.parent)
      ensures Fields(elm) == old(Fields(elm)).(right := b, parent := tmp)
      ensures Fields(tmp) == old(Fields(elm.right)).(left := elm, parent := p)
      ensures b != null ==> Fields(b) == old(Fields(elm.right.left)).(parent := elm)
      ensures p != null ==>
          Fields(p) == if old(elm.parent.left) == elm then old(Fields(elm.parent)).(left := tmp)
          else old(Fields(elm.parent)).(right := tmp)
      ensures root == if p == null then tmp else old(root)
    {
      tmp, b, p := elm.right, elm.right.left, elm.parent;
      elm.right := tmp.left;
      if elm.right != null {
        tmp.left.parent := elm;
      }
      tmp.parent := elm.parent;
      if tmp.parent != null {
        if elm == elm.parent.left {
          elm.parent.left := tmp;
        } else {
          elm.parent.right := tmp;
        }
      } else {
        root := tmp;
      }
      tmp.left := elm;
      elm.parent := tmp;
    }

    method RotateLeftRows(elm: Elm) returns (tmp: Elm)
      requires Table() && RotLReady(rows, elm)
      modifies this`root, this`rows, rows.Keys
      ensures Table() && tmp == old(rows)[elm].right
          && rows == RotLRows(old(rows), elm, tmp, old(rows)[tmp].left, old(rows)[elm].parent)
      ensures root == if old(rows)[elm].parent == null then tmp else old(root)
    {
      ghost var b, p;
      tmp, b, p := TurnLeft(elm);
      rows := RotLRows(rows, elm, tmp, b, p);
    }

    method RotateLeft(elm: Elm) returns (tmp: Elm)
      requires Wired() && Has(tree, elm) && At(tree, elm).right.Node?
      modifies this, rows.Keys
      ensures Wired() && rows.Keys == old(rows.Keys) && tree == Replace(old(tree), elm, RotL(At(old(tree), elm)))
      ensures tmp == At(old(tree), elm).right.elm
    {
      RotLShape(tree, rows, elm);
      tree := Replace(tree, elm, RotL(At(tree, elm)));
      tmp := RotateLeftRows(elm);
    }

    /** RB_ROTATE_RIGHT on the node objects. */
    method TurnRight(elm: Elm) returns (tmp: Elm, ghost b: Elm?, ghost p: Elm?)
      requires elm.left != null && elm.left != elm && elm.left.right != elm && elm.left.right != elm.left
      requires elm.parent != elm && elm.parent != elm.left && (elm.parent != null ==> elm.parent != elm.left.right)
      modifies this`root, elm, elm.left, if elm.left.right == null then {} else {elm.left.right}
      modifies if elm.parent == null then {} else {elm.parent}
      ensures tmp == old(elm.left) && b == old(elm.left.right) && p == old(elm.parent)
      ensures Fields(elm) == old(Fields(elm)).(left := b, parent := tmp)
      ensures Fields(tmp) == old(Fields(elm.left)).(right := elm, parent := p)
      ensures b != null ==> Fields(b) == old(Fields(elm.left.right)).(parent := elm)
      ensures p != null ==>
          Fields(p) == if old(elm.parent.left) == elm then old(Fields(elm.parent)).(left := tmp)
          else old(Fields(elm.parent)).(right := tmp)
      ensures root == if p == null then tmp else old(root)
    {
      tmp, b, p := elm.left, elm.left.right, elm.parent;
      elm.left := tmp.right;
      if elm.left != null {
        tmp.right.parent := elm;
      }
      tmp.parent := elm.parent;
      if tmp.parent != null {
        if elm == elm.parent.left {
          elm.parent.left := tmp;
        } else {
          elm.parent.right := tmp;
        }
      } else {
        root := tmp;
      }
      tmp.right := elm;
      elm.parent := tmp;
    }

    method RotateRightRows(elm: Elm) returns (tmp: Elm)
      requires Table() && RotRReady(rows, elm)
      modifies this`root, this`rows, rows.Keys
      ensures Table() && tmp == old(rows)[elm].left
          && rows == RotRRows(old(rows), elm, tmp, old(rows)[tmp].right, old(rows)[elm].parent)
      ensures root == if old(rows)[elm].parent == null then tmp else old(root)
    {
      ghost var b, p;
      tmp, b, p := TurnRight(elm);
      rows := RotRRows(rows, elm, tmp, b, p);
    }

    method RotateRight(elm: Elm) returns (tmp: Elm)
      requires Wired() && Has(tree, elm) && At(tree, elm).left.Node?
      modifies this, rows.Keys
      ensures Wired() && rows.Keys == old(rows.Keys) && tree == Replace(old(tree), elm, RotR(At(old(tree), elm)))
      ensures tmp == At(old(tree), elm).left.elm
    {
      RotRShape(tree, rows, elm);
      tree := Replace(tree, elm, RotR(At(tree, elm)));
      tmp := RotateRightRows(elm);
    }
    // ---- colours and insertion ----
    method SetColor(e: Elm, red: bool)
      requires Wired() && Has(tree, e)
      modifies this, e`red
      ensures Wired() && rows.Keys == old(rows.Keys) && tree == Paint(old(tree), e, red) && root == old(root)
    {
      PaintShape(tree, rows, e, red);
      e.red := red;
      tree := Paint(tree, e, red);
      rows := rows[e := rows[e].(red := red)];
    }

    /** What the fields of a node say. */
    lemma {:induction false} LookAt(e: Elm)
      requires Wired() && e in rows
      ensures Has(tree, e) && Fields(e) == RowOf(tree, null, e) && (e.parent != null ==> e.parent in rows)
      ensures (e.left != null ==> e.left in rows) && (e.right != null ==> e.right in rows)
      ensures (e.parent != null && e.parent.red) <==> ParentRed(tree, e)
    {
      assert Look(e);
      ParentRow(tree, e);
      if e.parent != null { assert Look(e.parent); }
      ChildElems(tree, e);
    }

    /** The uncle is red: colours move up. */
    method RecolorLeft(elm: Elm, parent: Elm, gparent: Elm, tmp: Elm, ghost h: int)
      requires Wired() && RedRed(tree, h, elm, parent, gparent) && gparent in rows && parent in rows && tmp in rows
          && parent.key < gparent.key
      requires Red(At(tree, gparent).right) && At(tree, gparent).right.elm == tmp
      modifies this, rows.Keys
      ensures Wired() && rows.Keys == old(rows.Keys) && RedSpot(tree, h, gparent)
          && PathLen(tree, gparent) == PathLen(old(tree), gparent)
    {
      UncleRedTreeLeft(tree, h, elm, parent, gparent, tmp);
      LookAt(tmp);
      SetColor(tmp, false);
      LookAt(parent);
      SetColor(parent, false);
      LookAt(gparent);
      SetColor(gparent, true);
    }

    /** The outer red node's parent takes the grandparent's place. */
    method LiftLeft(elm: Elm, parent: Elm, gparent: Elm, ghost h: int)
      requires Wired() && RedRed(tree, h, elm, parent, gparent) && gparent in rows && parent in rows
          && elm.key < parent.key && parent.key < gparent.key
      requires !Red(At(tree, gparent).right)
      modifies this, rows.Keys
      ensures Wired() && rows.Keys == old(rows.Keys) && RedSpot(tree, h, elm) && !ParentRed(tree, elm)
    {
      OuterTreeLeft(tree, h, elm, parent, gparent);
      LookAt(parent);
      SetColor(parent, false);
      LookAt(gparent);
      SetColor(gparent, true);
      var tmp := RotateRight(gparent);
    }

    /** One round of RB_INSERT_COLOR with the parent on the left of the grandparent. */
    method FixLeft(elm0: Elm, parent0: Elm, gparent: Elm, ghost h: int) returns (elm: Elm)
      requires Wired() && RedRed(tree, h, elm0, parent0, gparent) && gparent in rows && parent0 in rows
          && elm0 in rows && parent0.key < gparent.key
      modifies this, rows.Keys
      ensures Wired() && rows.Keys == old(rows.Keys) && elm in rows && RedSpot(tree, h, elm)
      ensures !ParentRed(tree, elm) || (elm == gparent && PathLen(tree, elm) == PathLen(old(tree), gparent))
    {
      elm := elm0;
      var parent := parent0;
      LookAt(gparent);
      var tmp := gparent.right;
      if tmp != null { LookAt(tmp); ChildElems(tree, gparent); }
      if tmp != null && tmp.red {
        RecolorLeft(elm, parent, gparent, tmp, h);
        elm := gparent;
        return;
      }
      LookAt(parent);
      RedRedSides(tree, h, elm, parent, gparent);
      if parent.right == elm {
        InnerTreeLeft(tree, h, elm, parent, gparent);
        tmp := RotateLeft(parent);
        tmp := parent;
        parent := elm;
        elm := tmp;
      }
      LiftLeft(elm, parent, gparent, h);
    }

    /** The uncle is red: colours move up. */
    method RecolorRight(elm: Elm, parent: Elm, gparent: Elm, tmp: Elm, ghost h: int)
      requires Wired() && RedRed(tree, h, elm, parent, gparent) && gparent in rows && parent in rows && tmp in rows
          && parent.key > gparent.key
      requires Red(At(tree, gparent).left) && At(tree, gparent).left.elm == tmp
      modifies this, rows.Keys
      ensures Wired() && rows.Keys == old(rows.Keys) && RedSpot(tree, h, gparent)
          && PathLen(tree, gparent) == PathLen(old(tree), gparent)
    {
      UncleRedTreeRight(tree, h, elm, parent, gparent, tmp);
      LookAt(tmp);
      SetColor(tmp, false);
      LookAt(parent);
      SetColor(parent, false);
      LookAt(gparent);
      SetColor(gparent, true);
    }

    /** The outer red node's parent takes the grandparent's place. */
    method LiftRight(elm: Elm, parent: Elm, gparent: Elm, ghost h: int)
      requires Wired() && RedRed(tree, h, elm, parent, gparent) && gparent in rows && parent in rows
          && elm.key > parent.key && parent.key > gparent.key
      requires !Red(At(tree, gparent).left)
      modifies this, rows.Keys
      ensures Wired() && rows.Keys == old(rows.Keys) && RedSpot(tree, h, elm) && !ParentRed(tree, elm)
    {
      OuterTreeRight(tree, h, elm, parent, gparent);
      LookAt(parent);
      SetColor(parent, false);
      LookAt(gparent);
      SetColor(gparent, true);
      var tmp := RotateLeft(gparent);
    }

    /** One round of RB_INSERT_COLOR with the parent on the right of the grandparent. */
    method FixRight(elm0: Elm, parent0: Elm, gparent: Elm, ghost h: int) returns (elm: Elm)
      requires Wired() && RedRed(tree, h, elm0, parent0, gparent) && gparent in rows && parent0 in rows
          && elm0 in rows && parent0.key > gparent.key
      modifies this, rows.Keys
      ensures Wired() && rows.Keys == old(rows.Keys) && elm in rows && RedSpot(tree, h, elm)
      ensures !ParentRed(tree, elm) || (elm == gparent && PathLen(tree, elm) == PathLen(old(tree), gparent))
    {
      elm := elm0;
      var parent := parent0;
      LookAt(gparent);
      var tmp := gparent.left;
      if tmp != null { LookAt(tmp); ChildElems(tree, gparent); }
      if tmp != null && tmp.red {
        RecolorRight(elm, parent, gparent, tmp, h);
        elm := gparent;
        return;
      }
      LookAt(parent);
      RedRedSides(tree, h, elm, parent, gparent);
      if parent.left == elm {
        InnerTreeRight(tree, h, elm, parent, gparent);
        tmp := RotateRight(parent);
        tmp := parent;
        parent := elm;
        elm := tmp;
      }
      LiftRight(elm, parent, gparent, h);
    }


    /** RB_INSERT_COLOR: the new red node `z` may have a red parent. */
    method InsertColor(z: Elm, ghost h: int) returns (ghost h': int)
      requires Wired() && z in rows && RedSpot(tree, h, z)
      modifies this, rows.Keys
      ensures Wired() && rows.Keys == old(rows.Keys) && !Red(tree) && Balanced(tree, h', null)
    {
      var elm := z;
      LookAt(elm);
      while elm.parent != null && elm.parent.red
        invariant Wired() && rows.Keys == old(rows.Keys) && elm in rows && Has(tree, elm) && RedSpot(tree, h, elm)
        invariant (elm.parent != null && elm.parent.red) <==> ParentRed(tree, elm)
        decreases if ParentRed(tree, elm) then 1 + PathLen(tree, elm) else 0
      {
        LookAt(elm);
        var parent := elm.parent;
        LookAt(parent);
        RedRedSetup(tree, h, elm);
        var gparent := parent.parent;
        LookAt(gparent);
        RedRedSides(tree, h, elm, parent, gparent);
        if parent == gparent.left {
          elm := FixLeft(elm, parent, gparent, h);
        } else {
          elm := FixRight(elm, parent, gparent, h);
        }
        LookAt(elm);
      }
      DropExemption2(tree, h, elm);
      h' := if Red(tree) then h + 1 else h;
      BlackenRoot(tree, h);
      SetColor(root, false);
    }

    // ---- the interface ----

    ghost predicate Valid()
      reads this, rows.Keys
    {
      Wired() && !Red(tree) && Balanced(tree, BlackHeight(tree), null)
    }

    /** RB_INIT */
    constructor ()
      ensures Valid() && rows == map[]
    {
      root, tree, rows := null, Leaf, map[];
    }

    /** The search loop of RB_INSERT. */
    method Search(elm: Elm) returns (found: Elm?, parent: Elm?)
      requires Valid()
      ensures found != null ==> found in rows && found.key == elm.key
      ensures found == null ==> NewKey(tree, elm) && parent == Last(tree, null, elm)
    {
      found, parent := root, null;
      ghost var cur := tree;
      while found != null
        invariant found == Root(cur) && (cur.Node? ==> found in rows && Has(tree, found) && At(tree, found) == cur)
        invariant Last(cur, parent, elm) == Last(tree, null, elm)
        invariant forall x <- Elems(tree) :: x.key == elm.key ==> x in Elems(cur)
        decreases cur
      {
        parent := found;
        LookAt(found);
        ChildElems(tree, found);
        AtIsSubtree(tree, null, found, found);
        if elm.key < parent.key {
          found := found.left;
          KeepsLeft(cur, elm);
          cur := cur.left;
        } else if elm.key > parent.key {
          found := found.right;
          KeepsRight(cur, elm);
          cur := cur.right;
        } else {
          return;
        }
      }
    }

    /** RB_SET and the link from the parent. */
    method Attach(elm: Elm, parent: Elm?)
      requires Table() && elm !in rows && (parent != null ==> parent in rows)
      modifies this`root, this`rows, rows.Keys, elm
      ensures Table() && rows == InsertRows(old(rows), elm, parent) && root == if parent == null then elm else old(root)
    {
      elm.parent, elm.left, elm.right, elm.red := parent, null, null, true;
      if parent != null {
        if elm.key < parent.key {
          parent.left := elm;
        } else {
          parent.right := elm;
        }
      } else {
        root := elm;
      }
      rows := InsertRows(rows, elm, parent);
    }

    /** The new node hangs where the search ended, red. */
    method AddLeaf(elm: Elm, parent: Elm?, ghost h: int)
      requires Wired() && elm !in rows && NewKey(tree, elm) && parent == Last(tree, null, elm)
          && Balanced(tree, h, null) && !Red(tree)
      modifies this, rows.Keys, elm
      ensures Wired() && rows.Keys == old(rows.Keys) + {elm} && RedSpot(tree, h, elm)
    {
      InsertShape(tree, rows, elm, h);
      tree := Insert(tree, elm);
      Attach(elm, parent);
    }

    /** RB_INSERT: `elm` joins the tree, unless an equal node is there, which is then returned. */
    method InsertNode(elm: Elm) returns (existing: Elm?)
      requires Valid()
      modifies this, rows.Keys, elm
      ensures Valid()
      ensures existing == null ==> rows.Keys == old(rows.Keys) + {elm} && forall x <- old(rows.Keys) :: x.key != elm.key
      ensures existing != null ==> existing in rows && existing.key == elm.key
                                   && tree == old(tree) && rows == old(rows) && root == old(root) && unchanged(elm)
                                       && unchanged(rows.Keys)
    {
      ghost var h := BlackHeight(tree);
      var parent;
      existing, parent := Search(elm);
      if existing != null { return; }
      AddLeaf(elm, parent, h);
      h := InsertColor(elm, h);
      HeightUnique(tree, h);
    }

    /** A node's fields and its children's colours, in terms of its subtree. */
    lemma {:induction false} Kids(e: Elm)
      requires Wired() && e in rows
      ensures Has(tree, e) && e.red == At(tree, e).red && e.left == Root(At(tree, e).left)
          && e.right == Root(At(tree, e).right)
      ensures e.parent == Parent(tree, null, e) && (e.parent != null ==> e.parent in rows)
      ensures e.left != null ==>
          e.left in rows && Has(tree, e.left) && At(tree, e.left) == At(tree, e).left
          && e.left.red == At(tree, e).left.red
      ensures e.right != null ==>
          e.right in rows && Has(tree, e.right) && At(tree, e.right) == At(tree, e).right
          && e.right.red == At(tree, e).right.red
    {
      LookAt(e);
      ChildElems(tree, e);
      if e.left != null { LookAt(e.left); }
      if e.right != null { LookAt(e.right); }
    }

    /** Case 1 of RB_REMOVE_COLOR: a red sibling moves up. */
    method RaiseRedSiblingLeft(parent: Elm, tmp: Elm, ghost h: int)
      requires Wired() && parent in rows && tmp in rows && Has(tree, parent) && DeficitLeft(tree, h, parent)
          && !Red(tree)
      requires Red(At(tree, parent).right) && At(tree, parent).right.elm == tmp
      modifies this, rows.Keys
      ensures Wired() && rows.Keys == old(rows.Keys) && Has(tree, parent) && DeficitLeft(tree, h, parent) && !Red(tree)
      ensures At(tree, parent).red && At(tree, parent).left == At(old(tree), parent).left
          && !Red(At(tree, parent).right)
    {
      RedSiblingTreeLeft(tree, h, parent);
      SetColor(tmp, false);
      SetColor(parent, true);
      var t := RotateLeft(parent);
    }

    /** Case 3: the near nephew moves up. */
    method RaiseNearNephewLeft(parent: Elm, tmp: Elm, oleft: Elm, ghost h: int)
      requires Wired() && parent in rows && tmp in rows && oleft in rows && Has(tree, parent)
          && DeficitLeft(tree, h, parent) && !Red(tree)
      requires At(tree, parent).right.Node? && !At(tree, parent).right.red && At(tree, parent).right.elm == tmp
      requires Red(At(tree, parent).right.left) && At(tree, parent).right.left.elm == oleft
          && !Red(At(tree, parent).right.right)
      modifies this, rows.Keys
      ensures Wired() && rows.Keys == old(rows.Keys) && Has(tree, parent) && DeficitLeft(tree, h, parent) && !Red(tree)
      ensures At(tree, parent).red == At(old(tree), parent).red && At(tree, parent).left == At(old(tree), parent).left
      ensures At(tree, parent).right.Node? && !At(tree, parent).right.red && Red(At(tree, parent).right.right)
    {
      NearNephewTreeLeft(tree, h, parent);
      SetColor(oleft, false);
      SetColor(tmp, true);
      var t := RotateRight(tmp);
    }

    /** Case 4: the far nephew pays for the missing black node. */
    method SettleFarNephewLeft(parent: Elm, tmp: Elm, ghost far: Elm, ghost h: int)
      requires Wired() && parent in rows && tmp in rows && far in rows && Has(tree, parent)
          && DeficitLeft(tree, h, parent) && !Red(tree)
      requires At(tree, parent).right.Node? && !At(tree, parent).right.red && At(tree, parent).right.elm == tmp
      requires Red(At(tree, parent).right.right) && !Red(At(tree, parent).left)
          && At(tree, parent).right.right.elm == far
      requires tmp.right == far && parent.red == At(tree, parent).red
      modifies this, rows.Keys
      ensures Wired() && rows.Keys == old(rows.Keys) && Balanced(tree, h, null) && !Red(tree)
    {
      FarNephewTreeLeft(tree, h, parent);
      SetColor(tmp, parent.red);
      SetColor(parent, false);
      if tmp.right != null {
        SetColor(tmp.right, false);
      }
      var t := RotateLeft(parent);
    }

    /** Case 1 of RB_REMOVE_COLOR: a red sibling moves up. */
    method RaiseRedSiblingRight(parent: Elm, tmp: Elm, ghost h: int)
      requires Wired() && parent in rows && tmp in rows && Has(tree, parent) && DeficitRight(tree, h, parent)
          && !Red(tree)
      requires Red(At(tree, parent).left) && At(tree, parent).left.elm == tmp
      modifies this, rows.Keys
      ensures Wired() && rows.Keys == old(rows.Keys) && Has(tree, parent) && DeficitRight(tree, h, parent) && !Red(tree)
      ensures At(tree, parent).red && At(tree, parent).right == At(old(tree), parent).right
          && !Red(At(tree, parent).left)
    {
      RedSiblingTreeRight(tree, h, parent);
      SetColor(tmp, false);
      SetColor(parent, true);
      var t := RotateRight(parent);
    }

    /** Case 3: the near nephew moves up. */
    method RaiseNearNephewRight(parent: Elm, tmp: Elm, oright: Elm, ghost h: int)
      requires Wired() && parent in rows && tmp in rows && oright in rows && Has(tree, parent)
          && DeficitRight(tree, h, parent) && !Red(tree)
      requires At(tree, parent).left.Node? && !At(tree, parent).left.red && At(tree, parent).left.elm == tmp
      requires Red(At(tree, parent).left.right) && At(tree, parent).left.right.elm == oright
          && !Red(At(tree, parent).left.left)
      modifies this, rows.Keys
      ensures Wired() && rows.Keys == old(rows.Keys) && Has(tree, parent) && DeficitRight(tree, h, parent) && !Red(tree)
      ensures At(tree, parent).red == At(old(tree), parent).red && At(tree, parent).right == At(old(tree), parent).right
      ensures At(tree, parent).left.Node? && !At(tree, parent).left.red && Red(At(tree, parent).left.left)
    {
      NearNephewTreeRight(tree, h, parent);
      SetColor(oright, false);
      SetColor(tmp, true);
      var t := RotateLeft(tmp);
    }

    /** Case 4: the far nephew pays for the missing black node. */
    method SettleFarNephewRight(parent: Elm, tmp: Elm, ghost far: Elm, ghost h: int)
      requires Wired() && parent in rows && tmp in rows && far in rows && Has(tree, parent)
          && DeficitRight(tree, h, parent) && !Red(tree)
      requires At(tree, parent).left.Node? && !At(tree, parent).left.red && At(tree, parent).left.elm == tmp
      requires Red(At(tree, parent).left.left) && !Red(At(tree, parent).right) && At(tree, parent).left.left.elm == far
      requires tmp.left == far && parent.red == At(tree, parent).red
      modifies this, rows.Keys
      ensures Wired() && rows.Keys == old(rows.Keys) && Balanced(tree, h, null) && !Red(tree)
    {
      FarNephewTreeRight(tree, h, parent);
      SetColor(tmp, parent.red);
      SetColor(parent, false);
      if tmp.left != null {
        SetColor(tmp.left, false);
      }
      var t := RotateRight(parent);
    }

    /** The start of a round: a red sibling, if there is one, is rotated away. */
    method BlackSiblingLeft(parent: Elm, ghost h: int) returns (tmp: Elm)
      requires Wired() && parent in rows && Has(tree, parent) && DeficitLeft(tree, h, parent) && !Red(tree)
          && !Red(At(tree, parent).left)
      modifies this, rows.Keys
      ensures Wired() && rows.Keys == old(rows.Keys) && Has(tree, parent) && DeficitLeft(tree, h, parent) && !Red(tree)
      ensures At(tree, parent).left == At(old(tree), parent).left && At(tree, parent).right.Node?
          && !At(tree, parent).right.red
      ensures tmp == At(tree, parent).right.elm && tmp in rows && (At(tree, parent).red || tree == old(tree))
    {
      Kids(parent);
      HasSiblingLeft(tree, h, parent);
      tmp := parent.right;
      if tmp.red {
        RaiseRedSiblingLeft(parent, tmp, h);
        Kids(parent);
        HasSiblingLeft(tree, h, parent);
        tmp := parent.right;
      }
    }

    /** Cases 3 and 4: some nephew is red. */
    method RedNephewLeft(parent: Elm, tmp0: Elm, ghost h: int)
      requires Wired() && parent in rows && tmp0 in rows && Has(tree, parent) && DeficitLeft(tree, h, parent)
          && !Red(tree) && !Red(At(tree, parent).left)
      requires At(tree, parent).right.Node? && !At(tree, parent).right.red && tmp0 == At(tree, parent).right.elm
      requires Red(At(tree, parent).right.left) || Red(At(tree, parent).right.right)
      modifies this, rows.Keys
      ensures Wired() && rows.Keys == old(rows.Keys) && !Red(tree) && Balanced(tree, h, null)
    {
      var tmp := tmp0;
      Kids(parent);
      Kids(tmp);
      if tmp.right == null || !tmp.right.red {
        RaiseNearNephewLeft(parent, tmp, tmp.left, h);
        Kids(parent);
        tmp := parent.right;
        Kids(tmp);
      }
      SettleFarNephewLeft(parent, tmp, tmp.right, h);
    }

    /** Case 2: both nephews are black, and the short place moves up. */
    method MoveUpLeft(elm: Elm, tmp: Elm, ghost h: int) returns (parent: Elm?, ghost lesser: bool)
      requires Wired() && elm in rows && tmp in rows && Has(tree, elm) && DeficitLeft(tree, h, elm) && !Red(tree)
          && !Red(At(tree, elm).left)
      requires At(tree, elm).right.Node? && !At(tree, elm).right.red && tmp == At(tree, elm).right.elm
      requires !Red(At(tree, elm).right.left) && !Red(At(tree, elm).right.right)
          && elm.parent == Parent(tree, null, elm) && (elm.parent != null ==> elm.parent in rows)
      modifies this, rows.Keys
      ensures Wired() && rows.Keys == old(rows.Keys) && elm.red == old(elm.red) && parent == old(elm.parent)
      ensures Spot(tree, h, parent, lesser, elm) && !Red(tree)
      ensures parent != null ==> Has(tree, parent) && PathLen(tree, parent) < PathLen(old(tree), elm)
    {
      BlackNephewsTreeLeft(tree, h, elm);
      AtIsSubtree(tree, null, elm, elm);
      assert Has(At(tree, elm).right, tmp);
      SetColor(tmp, true);
      parent := elm.parent;
      lesser := parent != null && elm.key < parent.key;
    }

    /** One round of RB_REMOVE_COLOR with the short child on the left. */
    method RemoveRoundLeft(parent0: Elm, ghost h: int) returns (parent: Elm?, elm: Elm?, done: bool, ghost lesser: bool)
      requires Wired() && parent0 in rows && Has(tree, parent0) && DeficitLeft(tree, h, parent0) && !Red(tree)
          && !Red(At(tree, parent0).left)
      modifies this, rows.Keys
      ensures Wired() && rows.Keys == old(rows.Keys) && !Red(tree)
      ensures done ==> Balanced(tree, h, null) && elm == root
      ensures !done ==> Spot(tree, h, parent, lesser, elm) && elm == parent0 && (parent != null ==> parent in rows)
      ensures !done ==>
          elm.red || parent == null || (Has(tree, parent) && PathLen(tree, parent) < PathLen(old(tree), parent0))
    {
      parent, done, lesser := parent0, false, false;
      var tmp := BlackSiblingLeft(parent, h);
      Kids(parent);
      Kids(tmp);
      if (tmp.left == null || !tmp.left.red) && (tmp.right == null || !tmp.right.red) {
        elm := parent;
        parent, lesser := MoveUpLeft(elm, tmp, h);
      } else {
        RedNephewLeft(parent, tmp, h);
        elm, done := root, true;
      }
    }

    /** The start of a round: a red sibling, if there is one, is rotated away. */
    method BlackSiblingRight(parent: Elm, ghost h: int) returns (tmp: Elm)
      requires Wired() && parent in rows && Has(tree, parent) && DeficitRight(tree, h, parent) && !Red(tree)
          && !Red(At(tree, parent).right)
      modifies this, rows.Keys
      ensures Wired() && rows.Keys == old(rows.Keys) && Has(tree, parent) && DeficitRight(tree, h, parent) && !Red(tree)
      ensures At(tree, parent).right == At(old(tree), parent).right && At(tree, parent).left.Node?
          && !At(tree, parent).left.red
      ensures tmp == At(tree, parent).left.elm && tmp in rows && (At(tree, parent).red || tree == old(tree))
    {
      Kids(parent);
      HasSiblingRight(tree, h, parent);
      tmp := parent.left;
      if tmp.red {
        RaiseRedSiblingRight(parent, tmp, h);
        Kids(parent);
        HasSiblingRight(tree, h, parent);
        tmp := parent.left;
      }
    }

    /** Cases 3 and 4: some nephew is red. */
    method RedNephewRight(parent: Elm, tmp0: Elm, ghost h: int)
      requires Wired() && parent in rows && tmp0 in rows && Has(tree, parent) && DeficitRight(tree, h, parent)
          && !Red(tree) && !Red(At(tree, parent).right)
      requires At(tree, parent).left.Node? && !At(tree, parent).left.red && tmp0 == At(tree, parent).left.elm
      requires Red(At(tree, parent).left.right) || Red(At(tree, parent).left.left)
      modifies this, rows.Keys
      ensures Wired() && rows.Keys == old(rows.Keys) && !Red(tree) && Balanced(tree, h, null)
    {
      var tmp := tmp0;
      Kids(parent);
      Kids(tmp);
      if tmp.left == null || !tmp.left.red {
        RaiseNearNephewRight(parent, tmp, tmp.right, h);
        Kids(parent);
        tmp := parent.left;
        Kids(tmp);
      }
      SettleFarNephewRight(parent, tmp, tmp.left, h);
    }

    /** Case 2: both nephews are black, and the short place moves up. */
    method MoveUpRight(elm: Elm, tmp: Elm, ghost h: int) returns (parent: Elm?, ghost lesser: bool)
      requires Wired() && elm in rows && tmp in rows && Has(tree, elm) && DeficitRight(tree, h, elm) && !Red(tree)
          && !Red(At(tree, elm).right)
      requires At(tree, elm).left.Node? && !At(tree, elm).left.red && tmp == At(tree, elm).left.elm
      requires !Red(At(tree, elm).left.right) && !Red(At(tree, elm).left.left)
          && elm.parent == Parent(tree, null, elm) && (elm.parent != null ==> elm.parent in rows)
      modifies this, rows.Keys
      ensures Wired() && rows.Keys == old(rows.Keys) && elm.red == old(elm.red) && parent == old(elm.parent)
      ensures Spot(tree, h, parent, lesser, elm) && !Red(tree)
      ensures parent != null ==> Has(tree, parent) && PathLen(tree, parent) < PathLen(old(tree), elm)
    {
      BlackNephewsTreeRight(tree, h, elm);
      AtIsSubtree(tree, null, elm, elm);
      assert Has(At(tree, elm).left, tmp);
      SetColor(tmp, true);
      parent := elm.parent;
      lesser := parent != null && elm.key < parent.key;
    }

    /** One round of RB_REMOVE_COLOR with the short child on the right. */
    method RemoveRoundRight(parent0: Elm, ghost h: int)
        returns (parent: Elm?, elm: Elm?, done: bool, ghost lesser: bool)
      requires Wired() && parent0 in rows && Has(tree, parent0) && DeficitRight(tree, h, parent0) && !Red(tree)
          && !Red(At(tree, parent0).right)
      modifies this, rows.Keys
      ensures Wired() && rows.Keys == old(rows.Keys) && !Red(tree)
      ensures done ==> Balanced(tree, h, null) && elm == root
      ensures !done ==> Spot(tree, h, parent, lesser, elm) && elm == parent0 && (parent != null ==> parent in rows)
      ensures !done ==>
          elm.red || parent == null || (Has(tree, parent) && PathLen(tree, parent) < PathLen(old(tree), parent0))
    {
      parent, done, lesser := parent0, false, false;
      var tmp := BlackSiblingRight(parent, h);
      Kids(parent);
      Kids(tmp);
      if (tmp.right == null || !tmp.right.red) && (tmp.left == null || !tmp.left.red) {
        elm := parent;
        parent, lesser := MoveUpRight(elm, tmp, h);
      } else {
        RedNephewRight(parent, tmp, h);
        elm, done := root, true;
      }
    }

    /** RB_REMOVE_COLOR: the subtree of `elm0` below `parent0` lacks a black node. */
    method RemoveColor(parent0: Elm?, elm0: Elm?, ghost h: int, ghost onLeft0: bool) returns (ghost h': int)
      requires Wired() && Spot(tree, h, parent0, onLeft0, elm0) && (parent0 != null ==> parent0 in rows)
          && (elm0 != null ==> elm0 in rows)
      modifies this, rows.Keys
      ensures Wired() && rows.Keys == old(rows.Keys) && !Red(tree) && Balanced(tree, h', null)
    {
      var parent, elm, done := parent0, elm0, false;
      ghost var onLeft := onLeft0;
      while (elm == null || !elm.red) && elm != root
        invariant Wired() && rows.Keys == old(rows.Keys) && (elm != null ==> elm in rows)
        invariant if done then Balanced(tree, h, null) && !Red(tree) && elm == root
                  else Spot(tree, h, parent, onLeft, elm) && (parent != null ==> parent in rows && Has(tree, parent))
        decreases if done || parent == null || (elm != null && elm.red) then 0 else 1 + PathLen(tree, parent)
      {
        Kids(parent);
        SpotSide(tree, h, parent, onLeft, elm);
        if parent.left == elm {
          parent, elm, done, onLeft := RemoveRoundLeft(parent, h);
        } else {
          parent, elm, done, onLeft := RemoveRoundRight(parent, h);
        }
        if parent != null && !done { Kids(parent); }
      }
      h' := h;
      if elm != null {
        Kids(elm);
        if done || parent == null {
          BlackenShort(tree, h, done);
          h' := if !done && !Red(tree) then h - 1 else h;
        } else {
          Kids(parent);
          ChildNotRoot(tree, parent, elm);
          DeficitPainted(tree, h, parent, onLeft, elm);
        }
        SetColor(elm, false);
      } else if !done {
        h' := h - 1;
      }
    }

    /** Taking `elm`, which lacks a child, out of the links. */
    method Unlink(elm: Elm, child: Elm?, parent: Elm?, ghost c: Tree)
      requires Wired() && elm in rows && Has(tree, elm) && LacksChild(tree, elm, c) && child == Root(c)
          && parent == elm.parent
      modifies this, rows.Keys - {elm}
      ensures Wired() && tree == Replace(old(tree), elm, c) && rows.Keys == old(rows.Keys) - {elm}
    {
      LookAt(elm);
      SpliceTree(tree, elm, c);
      SpliceShape(tree, rows, elm, c);
      HasElemsRoot(tree, elm, c);
      UnlinkRows(elm, child, parent);
      tree := Replace(tree, elm, c);
    }

    method UnlinkRows(elm: Elm, child: Elm?, parent: Elm?)
      requires Table() && elm in rows && elm != child && elm != parent
          && (child != null ==> child in rows && child != parent) && (parent != null ==> parent in rows)
      modifies this`root, this`rows, rows.Keys - {elm}
      ensures Table() && rows == SpliceRows(old(rows), elm, child, parent) && root == if parent == null then child
          else old(root)
    {
      if child != null {
        child.parent := parent;
      }
      if parent != null {
        if parent.left == elm {
          parent.left := child;
        } else {
          parent.right := child;
        }
      } else {
        root := child;
      }
      rows := SpliceRows(rows, elm, child, parent);
    }

    /** `elm` takes over the links and the colour of the node `gone`. */
    method CopyLinks(gone: Elm, elm: Elm, ghost p: Elm?, ghost l: Elm, ghost r: Elm?)
      requires p == gone.parent && l == gone.left && r == gone.right && gone != elm && p != gone && l != gone
          && r != gone
      requires p != elm && l != elm && r != elm && (p != null ==> p != l && p != r) && l != r
      modifies this`root, elm, l, if p == null then {} else {p}, if r == null then {} else {r}
      ensures Fields(elm) == old(Fields(gone)) && Fields(l) == old(Fields(l)).(parent := elm)
      ensures r != null ==> Fields(r) == old(Fields(r)).(parent := elm)
      ensures p != null ==>
          Fields(p) == if old(p.left) == gone then old(Fields(p)).(left := elm) else old(Fields(p)).(right := elm)
      ensures root == if p == null then elm else old(root)
    {
      elm.left, elm.right, elm.parent, elm.red := gone.left, gone.right, gone.parent, gone.red;
      if gone.parent != null {
        if gone.parent.left == gone {
          gone.parent.left := elm;
        } else {
          gone.parent.right := elm;
        }
      } else {
        root := elm;
      }
      gone.left.parent := elm;
      if gone.right != null {
        gone.right.parent := elm;
      }
    }

    method TakePlaceRows(gone: Elm, elm: Elm)
      requires Table() && Neighbours(rows, gone) && elm !in rows && gone.left != null
      modifies this`root, this`rows, rows.Keys - {gone}, elm
      ensures Table() && rows == RenameRows(old(rows), gone, elm)
      ensures root == if old(rows)[gone].parent == null then elm else old(root)
    {
      RenamedRows(rows, gone, elm);
      CopyLinks(gone, elm, gone.parent, gone.left, gone.right);
      rows := RenameRows(rows, gone, elm);
    }

    method TakePlace(gone: Elm, elm: Elm)
      requires Wired() && gone in rows && Fits(tree, gone, elm) && gone.left != null
      modifies this, rows.Keys - {gone}, elm
      ensures Wired() && tree == Rename(old(tree), gone, elm) && rows.Keys == old(rows.Keys) - {gone} + {elm}
    {
      PlaceFacts(gone, elm);
      TakePlaceRows(gone, elm);
      tree := Rename(tree, gone, elm);
    }

    lemma {:induction false} PlaceFacts(gone: Elm, elm: Elm)
      requires Wired() && gone in rows && Fits(tree, gone, elm) && gone.left != null
      ensures Neighbours(rows, gone) && elm !in rows && Shape(Rename(tree, gone, elm), RenameRows(rows, gone, elm))
      ensures RenameRows(rows, gone, elm).Keys == rows.Keys - {gone} + {elm}
      ensures Root(Rename(tree, gone, elm)) == if rows[gone].parent == null then elm else root
    {
      LookAt(gone);
      ParentRow(tree, gone);
      RenameShape(tree, rows, gone, elm);
      NeighboursOf(tree, rows, gone);
    }

    /** The loop of RB_REMOVE that finds the node to put in the place of `gone`. */
    method FindSuccessor(gone: Elm) returns (elm: Elm)
      requires Wired() && gone in rows && gone.right != null
      ensures elm in rows && Has(tree, gone) && IsSuccessor(tree, gone, elm)
    {
      Kids(gone);
      AtIsSubtree(tree, null, gone, gone);
      ghost var r := At(tree, gone).right;
      elm := gone.right;
      Kids(elm);
      assert Has(r, elm);
      forall x | x in Elems(r) ensures Has(r, x) { HasElems(r, x); }
      while elm.left != null
        invariant elm in rows && Has(tree, elm) && Has(r, elm) && At(r, elm) == At(tree, elm)
            && Root(At(tree, elm).left) == elm.left
        invariant forall x <- Elems(r) :: Has(At(tree, elm), x) || x.key > elm.key
        decreases At(tree, elm)
      {
        ghost var s := At(tree, elm);
        Kids(elm);
        AtIsSubtree(tree, null, elm, elm);
        assert Has(s.left, elm.left) && Has(s, elm.left);
        AtIsSubtree(r, null, elm, elm.left);
        forall x | x in Elems(r) ensures Has(s.left, x) || x.key > elm.left.key { NarrowMin(r, elm, x); }
        AtIsSubtree(tree, null, gone, elm);
        elm := elm.left;
        Kids(elm);
      }
      AtIsSubtree(tree, null, elm, elm);
      forall x | x in Elems(r) ensures x == elm || x.key > elm.key {
        if Has(At(tree, elm), x) && x != elm { Descend(At(tree, elm), null, x); }
      }
    }

    /** The plain removal inside RB_REMOVE: `elm` lacks a child. */
    method RemoveSimple(elm: Elm, child: Elm?, ghost c: Tree, ghost h: int)
        returns (parent: Elm?, red: bool, ghost lesser: bool)
      requires Wired() && Balanced(tree, h, null) && !Red(tree) && elm in rows && Has(tree, elm)
          && LacksChild(tree, elm, c) && child == Root(c)
      modifies this, rows.Keys - {elm}
      ensures Wired() && tree == Replace(old(tree), elm, c) && rows.Keys == old(rows.Keys) - {elm}
      ensures parent == elm.parent && parent == Parent(old(tree), null, elm) && (parent != null ==> parent in rows)
          && (child != null ==> child in rows)
      ensures if red then Balanced(tree, h, null) && !Red(tree) else Spot(tree, h, parent, lesser, child)
    {
      LookAt(elm);
      SpliceSpot(tree, h, elm, c);
      SpliceTree(tree, elm, c);
      HasElemsRoot(tree, elm, c);
      parent, red := elm.parent, elm.red;
      lesser := parent != null && elm.key < parent.key;
      Unlink(elm, child, parent, c);
    }

    /** RB_REMOVE: exactly `elm0` leaves the tree. */
    method RemoveNode(elm0: Elm) returns (gone: Elm)
      requires Valid() && elm0 in rows
      modifies this, rows.Keys
      ensures Valid() && rows.Keys == old(rows.Keys) - {elm0} && gone == elm0
    {
      gone := elm0;
      var elm := elm0;
      var child, parent, red;
      ghost var h, lesser := BlackHeight(tree), false;
      Kids(elm);
      if elm.left == null {
        child := elm.right;
        parent, red, lesser := RemoveSimple(elm, child, At(tree, elm).right, h);
      } else if elm.right == null {
        child := elm.left;
        parent, red, lesser := RemoveSimple(elm, child, At(tree, elm).left, h);
      } else {
        elm, child, parent, red, lesser := ReplaceBySuccessor(gone, h);
      }
      if !red {
        h := RemoveColor(parent, child, h, lesser);
      }
      HeightUnique(tree, h);
    }

    /** RB_REMOVE for a node with both children, first half: its successor is unlinked. */
    method UnlinkSuccessor(gone: Elm, ghost h: int)
        returns (elm: Elm, child: Elm?, parent: Elm?, red: bool, ghost lesser: bool)
      requires Wired() && Balanced(tree, h, null) && !Red(tree) && gone in rows && gone.left != null
          && gone.right != null
      modifies this, rows.Keys
      ensures Wired() && elm in old(rows.Keys) && rows.Keys == old(rows.Keys) - {elm} && gone in rows
          && gone.left != null
      ensures Fits(tree, gone, elm) && parent != null && parent == elm.parent && parent in rows
          && (child != null ==> child in rows && child != gone)
      ensures if red then Balanced(tree, h, null) && !Red(tree) else Spot(tree, h, parent, lesser, child)
    {
      elm := FindSuccessor(gone);
      Kids(elm);
      child := elm.right;
      ghost var c := At(tree, elm).right;
      LookAt(gone);
      SuccessorFits(tree, gone, elm, c);
      KeepsLeftChild(tree, gone, elm, c);
      parent, red, lesser := RemoveSimple(elm, child, c, h);
      LookAt(gone);
    }

    /** Second half: the successor is put in the place of `gone`. */
    method ReplaceBySuccessor(gone: Elm, ghost h: int)
        returns (elm: Elm, child: Elm?, parent: Elm?, red: bool, ghost lesser: bool)
      requires Wired() && Balanced(tree, h, null) && !Red(tree) && gone in rows && gone.left != null
          && gone.right != null
      modifies this, rows.Keys
      ensures Wired() && rows.Keys == old(rows.Keys) - {gone}
      ensures (parent != null ==> parent in rows) && (child != null ==> child in rows)
      ensures if red then Balanced(tree, h, null) && !Red(tree) else Spot(tree, h, parent, lesser, child)
    {
      elm, child, parent, red, lesser := UnlinkSuccessor(gone, h);
      RenameBalanced(tree, h, gone, elm);
      if !red { RenameSpot(tree, h, parent, lesser, child, gone, elm); }
      if elm.parent == gone {
        parent := elm;
      }
      TakePlace(gone, elm);
    }

    /** RB_NFIND: the first node not less than `elm`. */
    method NFind(elm: Elm) returns (res: Elm?)
      requires Valid()
      ensures res == null ==> forall x <- rows.Keys :: x.key < elm.key
      ensures res != null ==>
          res in rows && res.key >= elm.key && forall x <- rows.Keys :: x.key >= elm.key ==> res.key <= x.key
    {
      var tmp := root;
      res := null;
      ghost var cur := tree;
      while tmp != null
        invariant tmp == Root(cur) && Bst(cur) && (cur.Node? ==> tmp in rows && Has(tree, tmp) && At(tree, tmp) == cur)
        invariant res != null ==> res in rows && res.key > elm.key && forall y <- Elems(cur) :: y.key < res.key
        invariant forall x <- rows.Keys :: x in Elems(cur) || x.key < elm.key || (res != null && res.key <= x.key)
        decreases cur
      {
        Kids(tmp);
        AtIsSubtree(tree, null, tmp, tmp);
        SidesOrdered(cur);
        if elm.key < tmp.key {
          res := tmp;
          tmp := tmp.left;
          cur := cur.left;
        } else if elm.key > tmp.key {
          tmp := tmp.right;
          cur := cur.right;
        } else {
          return tmp;
        }
      }
    }

    /** RB_NEXT: the node that follows `elm0` in the order of the keys. */
    method Next(elm0: Elm) returns (next: Elm?)
      requires Valid() && elm0 in rows
      ensures next == null ==> forall x <- rows.Keys :: x.key <= elm0.key
      ensures next != null ==>
          next in rows && next.key > elm0.key && forall x <- rows.Keys :: x.key > elm0.key ==> next.key <= x.key
    {
      Kids(elm0);
      AtIsSubtree(tree, null, elm0, elm0);
      SidesOrdered(At(tree, elm0));
      if elm0.right != null {
        next := FindSuccessor(elm0);
        forall x | x in rows && x.key > elm0.key ensures next.key <= x.key { SuccessorFirst(tree, elm0, next, x); }
        AtIsSubtree(tree, null, elm0, next);
        HasElems(At(tree, elm0).right, next);
        return;
      }
      var elm := elm0;
      next := elm.parent;
      while next != null && elm == next.right
        invariant elm in rows && Has(tree, elm) && Has(At(tree, elm), elm0) && next == Parent(tree, null, elm)
            && (next != null ==> next in rows)
        invariant forall x <- Elems(At(tree, elm)) :: x.key <= elm0.key
        decreases PathLen(tree, elm)
      {
        Kids(elm);
        Kids(next);
        ClimbRight(tree, elm, next, elm0);
        PathGrows(tree, null, elm);
        elm := next;
        next := elm.parent;
      }
      if next == null {
        ParentRow(tree, elm);
        return;
      }
      Kids(next);
      ClimbLeft(tree, elm, next, elm0);
      forall x | x in rows && x.key > elm0.key ensures next.key <= x.key {
        HasElems(tree, x);
        Climbed(tree, next, elm0, x);
      }
    }

    /** RB_FIND, whose loop is the search loop of RB_INSERT. */
    method Find(elm: Elm) returns (found: Elm?)
      requires Valid()
      ensures if found == null then forall x <- rows.Keys :: x.key != elm.key else found in rows && found.key == elm.key
    {
      var parent;
      found, parent := Search(elm);
    }

    /** RB_MINMAX: the first node of all, or the last. */
    method MinMax(val: int) returns (parent: Elm?)
      requires Valid()
      ensures parent == null ==> rows.Keys == {}
      ensures parent != null ==>
          parent in rows && forall x <- rows.Keys :: if val < 0 then parent.key <= x.key else x.key <= parent.key
    {
      var tmp := root;
      parent := null;
      ghost var cur := tree;
      while tmp != null
        invariant tmp == Root(cur) && Bst(cur) && (cur.Node? ==> tmp in rows && Has(tree, tmp) && At(tree, tmp) == cur)
        invariant parent != null ==>
            parent in rows && forall y <- Elems(cur) :: if val < 0 then y.key < parent.key else parent.key < y.key
        invariant forall x <- rows.Keys ::
            x in Elems(cur) || (parent != null && if val < 0 then parent.key <= x.key else x.key <= parent.key)
        decreases cur
      {
        Kids(tmp);
        AtIsSubtree(tree, null, tmp, tmp);
        SidesOrdered(cur);
        parent := tmp;
        if val < 0 {
          tmp := tmp.left;
          cur := cur.left;
        } else {
          tmp := tmp.right;
          cur := cur.right;
        }
      }
    }

    /** RB_FOREACH: from RB_MIN by RB_NEXT, each node once, in increasing order. */
    method Foreach() returns (visited: seq<Elm>)
      requires Valid()
      ensures forall i, j | 0 <= i < j < |visited| :: visited[i].key < visited[j].key
      ensures forall x: Elm :: x in visited <==> x in rows
    {
      visited := [];
      var x := MinMax(-1);
      ghost var left := rows.Keys;
      while x != null
        invariant x != null ==> x in left && x in rows
        invariant forall y <- rows.Keys :: y in visited || (y in left && x != null && x.key <= y.key)
        invariant forall y <- visited :: y in rows && (x != null ==> y.key < x.key)
        invariant forall i, j | 0 <= i < j < |visited| :: visited[i].key < visited[j].key
        decreases left
      {
        var next := Next(x);
        forall y | y in rows && y != x ensures y.key != x.key {
          HasElems(tree, y);
          HasElems(tree, x);
          if y.key == x.key { OneKey(tree, x, y); }
        }
        visited := visited + [x];
        left := left - {x};
        x := next;
      }
    }
  }
}
