/** src/heap-inl.h: a binary min heap of linked nodes that finds its last place by the bits of the
    element count.

    The ghost view is the level-order sequence of the nodes.  On it, the linked operations are
    those of an array heap: `SiftUp`, `SiftDown` and `SwapAt` below know nothing of links or bits.
    Nodes are compared by `Less`, which is timer_less_than of src/timer.c: timers are all that
    libuv keeps in such a heap. */
module Heap {
  import opened Arith

  const U32_MAX := 0xFFFF_FFFF

  datatype Key = Key(timeout: nat, startId: nat)

  predicate Less(a: Key, b: Key) { a.timeout < b.timeout || (a.timeout == b.timeout && a.startId < b.startId) }

  class Node {
    var key: Key
    var left: Node?
    var right: Node?
    var parent: Node?

    constructor (key: Key)
      ensures this.key == key
    {
      this.key := key;
    }
  }

  datatype Item = Item(node: Node, key: Key)

  // ---------- The array heap ----------

  function Up(i: nat): int { (i - 1) / 2 }

  ghost predicate Above(s: seq<Item>, j: nat)
    requires 0 < j < |s|
  {
    !Less(s[j].key, s[Up(j)].key)
  }

  ghost predicate Ordered(s: seq<Item>) { forall j {:trigger Above(s, j)} | 0 < j < |s| :: Above(s, j) }

  ghost function SwapAt(s: seq<Item>, i: nat, j: nat): seq<Item>
    requires i < |s| && j < |s|
  {
    s[i := s[j]][j := s[i]]
  }

  ghost function SiftUp(s: seq<Item>, i: nat): seq<Item>
    requires i < |s|
    decreases i
  {
    if i == 0 || !Less(s[i].key, s[Up(i)].key) then s else SiftUp(SwapAt(s, Up(i), i), Up(i))
  }

  /** The smallest of i and its children, the earlier one in a tie. */
  ghost function Smallest(s: seq<Item>, i: nat): (c: nat)
    requires i < |s|
    ensures c < |s| && (c == i || c == 2 * i + 1 || c == 2 * i + 2)
  {
    var l, r := 2 * i + 1, 2 * i + 2;
    var c := if l < |s| && Less(s[l].key, s[i].key) then l else i;
    if r < |s| && Less(s[r].key, s[c].key) then r else c
  }

  ghost function SiftDown(s: seq<Item>, i: nat): (t: (seq<Item>, nat))
    requires i < |s|
    ensures |t.0| == |s| && t.1 < |s|
    decreases |s| - i
  {
    var c := Smallest(s, i);
    if c == i then (s, i) else SiftDown(SwapAt(s, i, c), c)
  }

  lemma {:induction false} SiftDownStep(s: seq<Item>, i: nat)
    requires i < |s|
    ensures var c := Smallest(s, i); SiftDown(s, i) == if c == i then (s, i) else SiftDown(SwapAt(s, i, c), c)
    ensures Smallest(s, i) >= i
  {
  }

  /** Everything is in order except perhaps at i, whose children suit its parent. */
  ghost predicate Hole(s: seq<Item>, i: nat) {
    && i < |s|
    && (forall j {:trigger Above(s, j)} | 0 < j < |s| && j != i && Up(j) != i :: Above(s, j))
    && (i > 0 ==> forall j {:trigger Above(s, j)} | 0 < j < |s| && Up(j) == i :: !Less(s[j].key, s[Up(i)].key))
  }

  ghost predicate ChildrenFine(s: seq<Item>, i: nat) {
    forall j {:trigger Above(s, j)} | 0 < j < |s| && Up(j) == i :: Above(s, j)
  }

  lemma {:induction false} SwapSame(s: seq<Item>, i: nat, j: nat)
    requires i < |s| && j < |s|
    ensures multiset(SwapAt(s, i, j)) == multiset(s)
  {
  }

  lemma {:induction false} SiftUpOrders(s: seq<Item>, i: nat)
    requires Hole(s, i) && ChildrenFine(s, i)
    ensures |SiftUp(s, i)| == |s| && Ordered(SiftUp(s, i)) && multiset(SiftUp(s, i)) == multiset(s)
    decreases i
  {
    if i == 0 || !Less(s[i].key, s[Up(i)].key) {
      forall j | 0 < j < |s| ensures Above(s, j) {}
    } else {
      var p, t := Up(i), SwapAt(s, Up(i), i);
      SwapSame(s, p, i);
      forall j | 0 < j < |s| && j != p ensures Above(t, j) { assert Above(s, j) || j == i; }
      if p > 0 {
        assert Above(s, p);
        forall j | 0 < j < |s| && Up(j) == p ensures !Less(t[j].key, t[Up(p)].key) { assert Above(s, j) || j == i; }
      }
      SiftUpOrders(t, p);
    }
  }

  lemma {:induction false} HoleSinks(s: seq<Item>, i: nat)
    requires Hole(s, i) && Smallest(s, i) != i
    ensures var c := Smallest(s, i); Hole(SwapAt(s, i, c), c)
  {
    var c := Smallest(s, i);
    var t := SwapAt(s, i, c);
    assert i > 0 ==> !Less(s[c].key, s[Up(i)].key) by { assert Above(s, c) || !Above(s, c); }
    forall j | 0 < j < |s| && j != c && Up(j) != c ensures Above(t, j) { assert Above(s, j) || j == i || Up(j) == i; }
    forall j | 0 < j < |s| && Up(j) == c ensures !Less(t[j].key, t[Up(c)].key) { assert Above(s, j); }
  }

  lemma {:induction false} SiftDownOrders(s: seq<Item>, i: nat)
    requires Hole(s, i)
    ensures var t := SiftDown(s, i); Hole(t.0, t.1) && ChildrenFine(t.0, t.1) && multiset(t.0) == multiset(s)
    decreases |s| - i
  {
    var c := Smallest(s, i);
    if c != i {
      HoleSinks(s, i);
      SwapSame(s, i, c);
      SiftDownOrders(SwapAt(s, i, c), c);
    }
  }

  /** The root is minimal. */
  lemma {:induction false} RootIsLeast(s: seq<Item>, j: nat)
    requires Ordered(s) && j < |s|
    ensures !Less(s[j].key, s[0].key)
    decreases j
  {
    if j > 0 {
      assert Above(s, j);
      RootIsLeast(s, Up(j));
    }
  }

  /** What heap_insert does to the level order. */
  ghost function Inserted(s: seq<Item>, x: Item): seq<Item> { SiftUp(s + [x], |s|) }

  lemma {:induction false} InsertedHeap(s: seq<Item>, x: Item)
    requires Ordered(s)
    ensures Ordered(Inserted(s, x)) && |Inserted(s, x)| == |s| + 1
        && multiset(Inserted(s, x)) == multiset(s) + multiset{x}
  {
    var t := s + [x];
    forall j | 0 < j < |s| ensures Above(t, j) { assert Above(s, j); }
    forall j | 0 < j < |t| && Up(j) == |s| ensures false {}
    SiftUpOrders(t, |s|);
  }

  /** What heap_remove does to the level order when the node at i goes. */
  ghost function Removed(s: seq<Item>, i: nat): seq<Item>
    requires i < |s|
  {
    var last := |s| - 1;
    if i == last then s[..last]
    else
      var t := SiftDown(s[..last][i := s[last]], i);
      SiftUp(t.0, t.1)
  }

  lemma {:induction false} RemovedInner(s: seq<Item>, i: nat)
    requires i < |s| - 1
    ensures var last := |s| - 1; var t := SiftDown(s[..last][i := s[last]], i); Removed(s, i) == SiftUp(t.0, t.1)
  {
  }

  lemma {:induction false} HoleLeft(s: seq<Item>, i: nat)
    requires Ordered(s) && i < |s| - 1
    ensures Hole(s[..|s| - 1][i := s[|s| - 1]], i)
  {
    var last := |s| - 1;
    var t := s[..last][i := s[last]];
    forall j | 0 < j < last && j != i && Up(j) != i ensures Above(t, j) { assert Above(s, j); }
    if i > 0 {
      assert Above(s, i);
      forall j | 0 < j < last && Up(j) == i ensures !Less(t[j].key, t[Up(i)].key) { assert Above(s, j); }
    }
  }

  lemma {:induction false} Refilled(s: seq<Item>, i: nat)
    requires i < |s|
    ensures var last := |s| - 1;
      multiset(if i == last then s[..last] else s[..last][i := s[last]]) == multiset(s) - multiset{s[i]}
  {
    var last := |s| - 1;
    assert s == s[..last] + [s[last]];
  }

  lemma {:induction false} Resifted(s: seq<Item>, i: nat)
    requires Hole(s, i)
    ensures var t := SiftDown(s, i); var u := SiftUp(t.0, t.1); Ordered(u) && |u| == |s| && multiset(u) == multiset(s)
  {
    SiftDownOrders(s, i);
    SiftUpOrders(SiftDown(s, i).0, SiftDown(s, i).1);
  }

  lemma {:induction false} RemovedHeap(s: seq<Item>, i: nat)
    requires Ordered(s) && i < |s|
    ensures Ordered(Removed(s, i)) && |Removed(s, i)| == |s| - 1
        && multiset(Removed(s, i)) == multiset(s) - multiset{s[i]}
  {
    var last := |s| - 1;
    Refilled(s, i);
    if i < last {
      HoleLeft(s, i);
      RemovedInner(s, i);
      Resifted(s[..last][i := s[last]], i);
    } else {
      forall j | 0 < j < last ensures Above(s[..last], j) { assert Above(s, j); }
    }
  }

  // ---------- Links ----------

  /** The fields of one node. */
  datatype Row = Row(key: Key, left: Node?, right: Node?, parent: Node?)

  ghost function Fields(e: Node): Row
    reads e
  {
    Row(e.key, e.left, e.right, e.parent)
  }

  ghost function NodeAt(s: seq<Item>, i: int): Node? { if 0 <= i < |s| then s[i].node else null }

  ghost function RowAt(s: seq<Item>, i: nat): Row
    requires i < |s|
  {
    Row(s[i].key, NodeAt(s, 2 * i + 1), NodeAt(s, 2 * i + 2), if i == 0 then null else NodeAt(s, Up(i)))
  }

  /** Always true: facts about all places are used where a place is mentioned with it. */
  ghost predicate Look(i: int) { true }

  /** The table `rows` lists the rows of the level order `s`, and `at` the places. */
  ghost predicate Shape(s: seq<Item>, rows: map<Node, Row>, at: map<Node, nat>) {
    match rows.Keys == at.Keys
    case true =>
      && (forall i {:trigger Look(i)} | Look(i) && 0 <= i < |s| ::
          s[i].node in at && at[s[i].node] == i && rows[s[i].node] == RowAt(s, i))
      && (forall e {:trigger at[e]} | e in at :: at[e] < |s| && s[at[e]].node == e)
    case false => false
  }

  ghost predicate IsChild(s: seq<Item>, p: nat, c: nat) { c < |s| && (c == 2 * p + 1 || c == 2 * p + 2) }

  /** The assignments of heap_node_swap, as they show in the row of node `e`. */
  ghost function SwapRow(r: Row, e: Node, p: Node, c: Node, rp: Row, rc: Row): Row {
    if e == c then if rp.left == c then Row(r.key, p, rp.right, rp.parent) else Row(r.key, rp.left, p, rp.parent)
    else if e == p then Row(r.key, rc.left, rc.right, c)
    else if e == (if rp.left == c then rp.right else rp.left) then r.(parent := c)
    else if e == rc.left || e == rc.right then r.(parent := p)
    else if e == rp.parent then if r.left == p then r.(left := c) else r.(right := c)
    else r
  }

  ghost function SwapRows(rows: map<Node, Row>, p: Node, c: Node): map<Node, Row>
    requires p in rows && c in rows
  {
    map e | e in rows :: SwapRow(rows[e], e, p, c, rows[p], rows[c])
  }

  /** Where a node of the level order is when p and c have changed places. */
  function Moved(i: nat, p: nat, c: nat): nat { if i == p then c else if i == c then p else i }

  lemma {:induction false} LookNear(s: seq<Item>, rows: map<Node, Row>, at: map<Node, nat>, i: nat)
    requires Shape(s, rows, at) && i < |s|
    ensures s[i].node in at && at[s[i].node] == i && rows[s[i].node] == RowAt(s, i)
  {
    assert Look(i);
  }

  /** Nodes at different places are different. */
  lemma {:induction false} Apart(s: seq<Item>, rows: map<Node, Row>, at: map<Node, nat>, i: int, j: int)
    requires Shape(s, rows, at)
    ensures NodeAt(s, i) == NodeAt(s, j) <==> i == j || (NodeAt(s, i) == null && NodeAt(s, j) == null)
  {
    assert Look(i) && Look(j);
  }

  /** The new row of the parent and of the child. */
  lemma {:induction false} SwapRowEnds(s: seq<Item>, rows: map<Node, Row>, at: map<Node, nat>, p: nat, c: nat)
    requires Shape(s, rows, at) && IsChild(s, p, c)
    ensures s[p].node in rows && s[c].node in rows
    ensures RowAt(SwapAt(s, p, c), c) ==
        SwapRow(rows[s[p].node], s[p].node, s[p].node, s[c].node, rows[s[p].node], rows[s[c].node])
    ensures RowAt(SwapAt(s, p, c), p) ==
        SwapRow(rows[s[c].node], s[c].node, s[p].node, s[c].node, rows[s[p].node], rows[s[c].node])
  {
    LookNear(s, rows, at, p);
    LookNear(s, rows, at, c);
    Apart(s, rows, at, 2 * p + 1, c);
    Apart(s, rows, at, p, c);
  }

  /** The new row of any other node. */
  lemma {:induction false} SwapRowOther(s: seq<Item>, rows: map<Node, Row>, at: map<Node, nat>, p: nat, c: nat, i: nat)
    requires Shape(s, rows, at) && IsChild(s, p, c) && i < |s| && i != p && i != c
    ensures s[p].node in rows && s[c].node in rows && s[i].node in rows
    ensures RowAt(SwapAt(s, p, c), i) ==
        SwapRow(rows[s[i].node], s[i].node, s[p].node, s[c].node, rows[s[p].node], rows[s[c].node])
  {
    LookNear(s, rows, at, p);
    LookNear(s, rows, at, c);
    LookNear(s, rows, at, i);
    Apart(s, rows, at, i, p);
    Apart(s, rows, at, i, c);
    Apart(s, rows, at, i, 2 * p + 1);
    Apart(s, rows, at, i, 2 * p + 2);
    Apart(s, rows, at, i, 2 * c + 1);
    Apart(s, rows, at, i, 2 * c + 2);
    Apart(s, rows, at, i, Up(p));
    Apart(s, rows, at, 2 * p + 1, c);
    Apart(s, rows, at, 2 * i + 1, p);
  }

  ghost function Opt(e: Node?): set<Node> { if e == null then {} else {e} }

  ghost predicate Differ(a: Node?, b: Node?) { a == null || a != b }

  /** The links of a parent and its child can be exchanged. */
  ghost predicate SwapReady(rows: map<Node, Row>, p: Node, c: Node) {
    && p in rows && c in rows && p != c
    && var rp, rc := rows[p], rows[c]; var s := if rp.left == c then rp.right else rp.left;
    && (rp.left == c || rp.right == c) && s !in {p, c}
        && Opt(s) + Opt(rc.left) + Opt(rc.right) + Opt(rp.parent) <= rows.Keys
    && rc.left !in {p, c} && rc.right !in {p, c} && rp.parent !in {p, c}
    && Differ(s, rc.left) && Differ(s, rc.right) && Differ(s, rp.parent)
    && Differ(rc.left, rc.right) && Differ(rc.left, rp.parent) && Differ(rc.right, rp.parent)
    && (rp.parent != null ==> rows[rp.parent].left == p || rows[rp.parent].right == p)
  }

  lemma {:induction false} SwapIsReady(s: seq<Item>, rows: map<Node, Row>, at: map<Node, nat>, p: nat, c: nat)
    requires Shape(s, rows, at) && IsChild(s, p, c)
    ensures SwapReady(rows, s[p].node, s[c].node)
  {
    LookNear(s, rows, at, p);
    LookNear(s, rows, at, c);
    var sib, l, r, g := if c == 2 * p + 1 then c + 1 else c - 1, 2 * c + 1, 2 * c + 2, if p == 0 then -1 else Up(p);
    assert Look(sib) && Look(l) && Look(r) && Look(g);
    Apart(s, rows, at, 2 * p + 1, c);
    ApartFrom(s, rows, at, sib, p, c);
    ApartFrom(s, rows, at, l, p, c);
    ApartFrom(s, rows, at, r, p, c);
    ApartFrom(s, rows, at, g, p, c);
    ApartFrom(s, rows, at, l, r, g);
    ApartFrom(s, rows, at, sib, l, r);
    ApartFrom(s, rows, at, g, r, sib);
  }

  lemma {:induction false} ApartFrom(s: seq<Item>, rows: map<Node, Row>, at: map<Node, nat>, i: int, j: int, k: int)
    requires Shape(s, rows, at) && i != j && i != k
    ensures Opt(NodeAt(s, i)) <= rows.Keys && Differ(NodeAt(s, i), NodeAt(s, j)) && Differ(NodeAt(s, i), NodeAt(s, k))
  {
    Apart(s, rows, at, i, j);
    Apart(s, rows, at, i, k);
    assert Look(i);
  }

  lemma {:induction false} SwapShape(s: seq<Item>, rows: map<Node, Row>, at: map<Node, nat>, p: nat, c: nat)
    requires Shape(s, rows, at) && IsChild(s, p, c)
    ensures s[p].node in rows && s[c].node in rows
    ensures Shape(SwapAt(s, p, c), SwapRows(rows, s[p].node, s[c].node), at[s[p].node := c][s[c].node := p])
  {
    LookNear(s, rows, at, p);
    LookNear(s, rows, at, c);
    var t, rows', at' := SwapAt(s, p, c), SwapRows(rows, s[p].node, s[c].node), at[s[p].node := c][s[c].node := p];
    forall i {:trigger Look(i)} | Look(i) && 0 <= i < |t|
        ensures t[i].node in at' && at'[t[i].node] == i && rows'[t[i].node] == RowAt(t, i)
    {
      LookNear(s, rows, at, Moved(i, p, c));
      SwapRowEnds(s, rows, at, p, c);
      if i != p && i != c { SwapRowOther(s, rows, at, p, c, i); }
    }
    forall e {:trigger at'[e]} | e in at' ensures at'[e] < |t| && t[at'[e]].node == e {
      assert e in at;
      var _ := at[e];
    }
  }

  lemma {:induction false} SwapFacts(s: seq<Item>, rows: map<Node, Row>, at: map<Node, nat>, parent: Node, child: Node)
    requires Shape(s, rows, at) && parent in at && child in at && IsChild(s, at[parent], at[child])
    ensures SwapReady(rows, parent, child)
    ensures var t := SwapAt(s, at[parent], at[child]);
      && Shape(t, SwapRows(rows, parent, child), at[parent := at[child]][child := at[parent]])
      && NodeAt(t, 0) == if rows[parent].parent == null then child else NodeAt(s, 0)
  {
    var p, c := at[parent], at[child];
    SwapIsReady(s, rows, at, p, c);
    SwapShape(s, rows, at, p, c);
    LookNear(s, rows, at, p);
    Apart(s, rows, at, 0, p);
    Apart(s, rows, at, Up(p), p);
  }

  // ---------- Finding a place by the bits of its number ----------

  /** The bits of n below its leading one, most significant first. */
  ghost function Bits(n: nat): seq<nat> { if n < 2 then [] else Bits(n / 2) + [n % 2] }

  /** A path keeps the bit to use next in its lowest position. */
  ghost function Packed(bits: seq<nat>): nat { if bits == [] then 0 else bits[0] + 2 * Packed(bits[1..]) }

  /** Where the bits lead from place t, counting places from 1. */
  ghost function Walk(t: nat, bits: seq<nat>): nat
    decreases |bits|
  {
    if bits == [] then t else Walk(2 * t + bits[0], bits[1..])
  }

  lemma {:induction false} WalkOn(t: nat, bits: seq<nat>, b: nat)
    ensures Walk(t, bits + [b]) == 2 * Walk(t, bits) + b
    decreases |bits|
  {
    if bits != [] {
      assert (bits + [b])[1..] == bits[1..] + [b];
      WalkOn(2 * t + bits[0], bits[1..], b);
    }
  }

  /** The bits of n lead from the root to place n. */
  lemma {:induction false} BitsLead(n: nat)
    requires n >= 1
    ensures Walk(1, Bits(n)) == n && forall k | 0 <= k < |Bits(n)| :: Bits(n)[k] < 2
  {
    if n >= 2 {
      BitsLead(n / 2);
      WalkOn(1, Bits(n / 2), n % 2);
    }
  }

  lemma {:induction false} WalkGrows(t: nat, bits: seq<nat>)
    ensures Walk(t, bits) >= t && (bits != [] && t > 0 ==> Walk(t, bits) > t)
    decreases |bits|
  {
    if bits != [] { WalkGrows(2 * t + bits[0], bits[1..]); }
  }

  lemma {:induction false} Halve(n: nat, w: nat)
    requires n >= 2
    ensures n / 2 * (2 * w) <= n * w && n / 2 * (2 * w) >= 2 * w
  {
    assert n * w == n / 2 * (2 * w) + n % 2 * w;
    Product(n % 2, w);
    AtLeast(n / 2, 2 * w);
  }

  /** The first loop of heap_insert and of heap_remove; the path fits its unsigned int. */
  method PathTo(n0: nat) returns (path: nat, k: nat)
    requires 1 <= n0 <= U32_MAX
    ensures k == |Bits(n0)| && path == Packed(Bits(n0)) && path <= U32_MAX
  {
    path, k := 0, 0;
    var n := n0;
    ghost var done: seq<nat>, w := [], 1;
    assert Bits(n) + [] == Bits(n);
    while n >= 2
      invariant n >= 1 && k == |done| && Bits(n0) == Bits(n) + done && path == Packed(done)
      invariant path < w <= n * w <= n0
    {
      Halve(n, w);
      assert ([n % 2] + done)[1..] == done && Bits(n / 2) + [n % 2] + done == Bits(n / 2) + ([n % 2] + done);
      done, w := [n % 2] + done, 2 * w;
      path := 2 * path + n % 2;
      n := n / 2;
      k := k + 1;
    }
    assert [] + done == done;
  }

  // ---------- The last place ----------

  /** The table with the link from place Up(n) to place n set to `to`. */
  ghost function LinkTo(s: seq<Item>, rows: map<Node, Row>, n: nat, to: Node?): map<Node, Row>
    requires n > 0 ==> Up(n) < |s| && s[Up(n)].node in rows
  {
    if n == 0 then rows
    else
      var p := s[Up(n)].node;
      rows[p := if n % 2 == 1 then rows[p].(left := to) else rows[p].(right := to)]
  }

  lemma {:induction false} AppendShape(s: seq<Item>, rows: map<Node, Row>, at: map<Node, nat>, x: Item)
    requires Shape(s, rows, at) && x.node !in at
    ensures |s| > 0 ==> s[Up(|s|)].node in rows
    ensures var t := s + [x]; Shape(t, LinkTo(s, rows, |s|, x.node)[x.node := RowAt(t, |s|)], at[x.node := |s|])
  {
    var n, t := |s|, s + [x];
    assert Look(Up(n));
    var rows', at' := LinkTo(s, rows, n, x.node)[x.node := RowAt(t, n)], at[x.node := n];
    forall i {:trigger Look(i)} | Look(i) && 0 <= i < |t|
        ensures t[i].node in at' && at'[t[i].node] == i && rows'[t[i].node] == RowAt(t, i)
    {
      if i < n {
        LookNear(s, rows, at, i);
        Apart(s, rows, at, i, Up(n));
      }
    }
    forall e {:trigger at'[e]} | e in at' ensures at'[e] < |t| && t[at'[e]].node == e {
      assert e != x.node ==> e in at;
      var _ := if e in at then at[e] else 0;
    }
  }

  lemma {:induction false} AppendFacts(s: seq<Item>, rows: map<Node, Row>, at: map<Node, nat>, x: Item)
    requires Shape(s, rows, at) && x.node !in at
    ensures |s| > 0 ==> s[Up(|s|)].node in rows
    ensures var n, t := |s|, s + [x];
      && Shape(t, LinkTo(s, rows, n, x.node)[x.node := RowAt(t, n)], at[x.node := n])
      && RowAt(t, n) == Row(x.key, null, null, if n == 0 then null else NodeAt(s, Up(n)))
      && NodeAt(t, 0) == if n == 0 then x.node else NodeAt(s, 0)
  {
    AppendShape(s, rows, at, x);
  }

  lemma {:induction false} ChopShape(s: seq<Item>, rows: map<Node, Row>, at: map<Node, nat>)
    requires Shape(s, rows, at) && s != []
    ensures s[|s| - 1].node in at && (|s| > 1 ==> s[Up(|s| - 1)].node in rows)
    ensures var n := |s| - 1; Shape(s[..n], LinkTo(s, rows, n, null) - {s[n].node}, at - {s[n].node})
  {
    var n := |s| - 1;
    var t := s[..n];
    LookNear(s, rows, at, n);
    assert Look(Up(n));
    var rows', at' := LinkTo(s, rows, n, null) - {s[n].node}, at - {s[n].node};
    forall i {:trigger Look(i)} | Look(i) && 0 <= i < |t|
        ensures t[i].node in at' && at'[t[i].node] == i && rows'[t[i].node] == RowAt(t, i)
    {
      LookNear(s, rows, at, i);
      Apart(s, rows, at, i, Up(n));
      Apart(s, rows, at, i, n);
    }
    forall e {:trigger at'[e]} | e in at' ensures at'[e] < |t| && t[at'[e]].node == e { var _ := at[e]; }
  }

  lemma {:induction false} ChopFacts(s: seq<Item>, rows: map<Node, Row>, at: map<Node, nat>)
    requires Shape(s, rows, at) && s != []
    ensures s[|s| - 1].node in at && (|s| > 1 ==> s[Up(|s| - 1)].node in rows)
    ensures var n := |s| - 1;
      && Shape(s[..n], LinkTo(s, rows, n, null) - {s[n].node}, at - {s[n].node})
      && NodeAt(s[..n], 0) == if n == 0 then null else NodeAt(s, 0)
  {
    ChopShape(s, rows, at);
  }

  /** The row of `e` when `x` has taken the place of the node `was` with row `r0`. */
  ghost function TakeRow(r: Row, e: Node, was: Node, x: Node, r0: Row): Row {
    if e == r0.left || e == r0.right then r.(parent := x)
    else if e == r0.parent then if r.left == was then r.(left := x) else r.(right := x)
    else r
  }

  ghost function TakeRows(rows: map<Node, Row>, was: Node, x: Node, key: Key): map<Node, Row>
    requires was in rows
  {
    var r0 := rows[was];
    map e | e in rows.Keys - {was} + {x} :: if e == x then r0.(key := key) else TakeRow(rows[e], e, was, x, r0)
  }

  lemma {:induction false} TakeRowAt(s: seq<Item>, rows: map<Node, Row>, at: map<Node, nat>, i: nat, x: Item, j: nat)
    requires Shape(s, rows, at) && i < |s| && j < |s| && i != j
    ensures s[i].node in rows && s[j].node in rows
    ensures RowAt(s[i := x], j) == TakeRow(rows[s[j].node], s[j].node, s[i].node, x.node, rows[s[i].node])
  {
    LookNear(s, rows, at, i);
    LookNear(s, rows, at, j);
    Apart(s, rows, at, j, 2 * i + 1);
    Apart(s, rows, at, j, 2 * i + 2);
    Apart(s, rows, at, j, Up(i));
    Apart(s, rows, at, 2 * j + 1, i);
  }

  ghost predicate TakeReady(rows: map<Node, Row>, node: Node)
    requires node in rows
  {
    var l, r, g := rows[node].left, rows[node].right, rows[node].parent;
    && l != node && r != node && g != node && Differ(l, r) && Differ(l, g) && Differ(r, g)
    && Opt(l) + Opt(r) + Opt(g) <= rows.Keys
  }

  lemma {:induction false} TakeFacts(s: seq<Item>, rows: map<Node, Row>, at: map<Node, nat>, node: Node, x: Item)
    requires Shape(s, rows, at) && node in at && x.node !in at
    ensures node in rows && TakeReady(rows, node)
    ensures Shape(s[at[node] := x], TakeRows(rows, node, x.node, x.key), (at - {node})[x.node := at[node]])
    ensures NodeAt(s[at[node] := x], 0) == if rows[node].parent == null then x.node else NodeAt(s, 0)
  {
    var i := at[node];
    TakeShape(s, rows, at, i, x);
    LookNear(s, rows, at, i);
    var l, r, g := 2 * i + 1, 2 * i + 2, if i == 0 then -1 else Up(i);
    ApartFrom(s, rows, at, l, i, r);
    ApartFrom(s, rows, at, r, i, g);
    ApartFrom(s, rows, at, g, i, l);
    ApartFrom(s, rows, at, l, g, i);
  }

  lemma {:induction false} TakeShape(s: seq<Item>, rows: map<Node, Row>, at: map<Node, nat>, i: nat, x: Item)
    requires Shape(s, rows, at) && i < |s| && x.node !in at
    ensures s[i].node in rows && Shape(s[i := x], TakeRows(rows, s[i].node, x.node, x.key),
        (at - {s[i].node})[x.node := i])
  {
    LookNear(s, rows, at, i);
    var t, rows', at' := s[i := x], TakeRows(rows, s[i].node, x.node, x.key), (at - {s[i].node})[x.node := i];
    forall j {:trigger Look(j)} | Look(j) && 0 <= j < |t|
        ensures t[j].node in at' && at'[t[j].node] == j && rows'[t[j].node] == RowAt(t, j)
    {
      LookNear(s, rows, at, j);
      if j != i { TakeRowAt(s, rows, at, i, x, j); }
    }
    forall e {:trigger at'[e]} | e in at' ensures at'[e] < |t| && t[at'[e]].node == e {
      var _ := if e in at then at[e] else 0;
    }
  }

  lemma {:induction false} Exchange<T>(s: set<T>, was: T, x: T)
    requires was in s && x in s && was != x
    ensures s - {x} - {was} + {x} == s - {was}
  {
  }

  /** A pointer to a pointer to a node. */
  datatype Slot = Root | LeftOf(node: Node) | RightOf(node: Node)

  class Heap {
    var min: Node?
    var nelts: nat
    ghost var order: seq<Item>
    ghost var rows: map<Node, Row>
    ghost var at: map<Node, nat>

    ghost predicate Table()
      reads this`rows, rows.Keys
    {
      forall e <- rows.Keys :: Fields(e) == rows[e]
    }

    /** The links are those of the complete tree in level order. */
    ghost predicate Wired()
      reads this, rows.Keys
    {
      match Table() && Shape(order, rows, at)
      case true => min == NodeAt(order, 0) && nelts == |order| <= U32_MAX
      case false => false
    }

    ghost predicate Valid()
      reads this, rows.Keys
    {
      Wired() && Ordered(order)
    }

    /** heap_init */
    constructor ()
      ensures Valid() && order == []
    {
      min, nelts := null, 0;
      order, rows, at := [], map[], map[];
    }

    /** heap_min: the root, which no member is less than. */
    method Min() returns (m: Node?)
      requires Valid()
      ensures m == NodeAt(order, 0) && (m == null <==> rows.Keys == {})
      ensures m != null ==> m in rows.Keys && forall e <- rows.Keys :: !Less(e.key, m.key)
    {
      m := min;
      if order != [] { LookNear(order, rows, at, 0); }
      forall e | e in rows.Keys ensures order != [] && !Less(e.key, m.key) {
        assert at[e] < |order|;
        LookNear(order, rows, at, at[e]);
        RootIsLeast(order, at[e]);
      }
    }

    /** Lines 78-89: the two structs change places, and the parent becomes a child of its child. */
    method CopyAcross(parent: Node, child: Node) returns (sibling: Node?)
      requires parent != child && (parent.left == child || parent.right == child)
      modifies {parent, child}`left, {parent, child}`right, {parent, child}`parent
      ensures var rp, rc := old(Fields(parent)), old(Fields(child));
        && Fields(parent) == Row(rp.key, rc.left, rc.right, child)
        && Fields(child) == (if rp.left == child then Row(rc.key, parent, rp.right, rp.parent)
            else Row(rc.key, rp.left, parent, rp.parent))
        && sibling == if rp.left == child then rp.right else rp.left
    {
      var t := (parent.left, parent.right, parent.parent);
      parent.left, parent.right, parent.parent := child.left, child.right, child.parent;
      child.left, child.right, child.parent := t.0, t.1, t.2;
      parent.parent := child;
      if child.left == child {
        child.left := parent;
        sibling := child.right;
      } else {
        child.right := parent;
        sibling := child.left;
      }
    }

    /** `if (e != NULL) e->parent = p;` */
    method SetParent(e: Node?, p: Node)
      modifies Opt(e)`parent
      ensures e != null ==> e.parent == p
    {
      if e != null { e.parent := p; }
    }

    /** The link down to `was` from its parent, or the root pointer, becomes a link to `now`. */
    method LinkDown(up: Node?, was: Node, now: Node)
      modifies this`min, Opt(up)`left, Opt(up)`right
      ensures min == if up == null then now else old(min)
      ensures up != null ==>
          Fields(up) == if old(up.left) == was then old(Fields(up)).(left := now) else old(Fields(up)).(right := now)
    {
      if up == null {
        min := now;
      } else if up.left == was {
        up.left := now;
      } else {
        up.right := now;
      }
    }

    /** The assignments of heap_node_swap; `s`, `l`, `r` and `g` are the other four nodes they can reach. */
    method Assign(parent: Node, child: Node, ghost s: Node?, ghost l: Node?, ghost r: Node?, ghost g: Node?)
      requires parent != child && s !in {parent, child} && l !in {parent, child} && r !in {parent, child}
          && g !in {parent, child}
      requires Differ(s, l) && Differ(s, r) && Differ(s, g) && Differ(l, r) && Differ(l, g) && Differ(r, g)
      requires (parent.left == child && parent.right == s) || (parent.left == s && parent.right == child)
      requires child.left == l && child.right == r && parent.parent == g
      modifies this`min, {parent, child}`left, {parent, child}`right, {parent, child}`parent, Opt(s)`parent,
          Opt(l)`parent, Opt(r)`parent, Opt(g)`left, Opt(g)`right
      ensures Fields(parent) == Row(old(parent.key), l, r, child)
      ensures Fields(child) == if old(parent.left) == child then Row(old(child.key), parent, s, g)
          else Row(old(child.key), s, parent, g)
      ensures s != null ==> s.parent == child
      ensures l != null ==> l.parent == parent
      ensures r != null ==> r.parent == parent
      ensures g != null ==>
          Fields(g) == if old(g.left) == parent then old(Fields(g)).(left := child) else old(Fields(g)).(right := child)
      ensures min == if g == null then child else old(min)
    {
      var sibling := CopyAcross(parent, child);
      SetParent(sibling, child);
      SetParent(parent.left, parent);
      SetParent(parent.right, parent);
      LinkDown(child.parent, parent, child);
    }

    method ExchangeLinks(parent: Node, child: Node)
      requires Table() && SwapReady(rows, parent, child)
      modifies this`min, this`rows, rows.Keys`left, rows.Keys`right, rows.Keys`parent
      ensures rows == SwapRows(old(rows), parent, child) && Table()
      ensures min == if old(rows)[parent].parent == null then child else old(min)
    {
      ghost var rp, rc := rows[parent], rows[child];
      ghost var s, l, r, g := if rp.left == child then rp.right else rp.left, rc.left, rc.right, rp.parent;
      assert Fields(parent) == rp && Fields(child) == rc;
      assert s != null ==> Fields(s) == rows[s];
      assert l != null ==> Fields(l) == rows[l];
      assert r != null ==> Fields(r) == rows[r];
      assert g != null ==> Fields(g) == rows[g];
      Assign(parent, child, s, l, r, g);
      forall e | e in rows ensures Fields(e) == SwapRow(rows[e], e, parent, child, rp, rc) {
        if e !in {parent, child} && e != s && e != l && e != r && e != g { assert Fields(e) == old(Fields(e)); }
      }
      rows := SwapRows(rows, parent, child);
    }

    /** The links have the shape of a new view. */
    ghost method View(order': seq<Item>, rows': map<Node, Row>, at': map<Node, nat>)
      requires Table() && rows == rows' && Shape(order', rows', at') && min == NodeAt(order', 0)
          && nelts == |order'| <= U32_MAX
      modifies this`order, this`at
      ensures Wired() && order == order' && at == at'
    {
      order, at := order', at';
    }

    /** heap_node_swap */
    method Swap(parent: Node, child: Node)
      requires Wired() && parent in at && child in at && IsChild(order, at[parent], at[child])
      modifies this, rows.Keys`left, rows.Keys`right, rows.Keys`parent
      ensures Wired() && rows.Keys == old(rows.Keys)
      ensures order == SwapAt(old(order), old(at)[parent], old(at)[child])
      ensures at == old(at)[parent := old(at)[child]][child := old(at)[parent]]
    {
      ghost var p, c := at[parent], at[child];
      ghost var order', rows', at' := SwapAt(order, p, c), SwapRows(rows, parent, child), at[parent := c][child := p];
      SwapFacts(order, rows, at, parent, child);
      ExchangeLinks(parent, child);
      View(order', rows', at');
    }

    // ---------- Slots ----------

    ghost function SlotOf(t: nat): Slot
      requires 1 <= t <= |order| + 1
      reads this
    {
      if t == 1 then Root else if t % 2 == 0 then LeftOf(order[t / 2 - 1].node) else RightOf(order[t / 2 - 1].node)
    }

    method Load(slot: Slot, ghost t: nat) returns (e: Node?)
      requires Wired() && 1 <= t <= |order| + 1 && slot == SlotOf(t)
      ensures e == NodeAt(order, t - 1)
    {
      if t > 1 { LookNear(order, rows, at, t / 2 - 1); }
      match slot
      case Root => e := min;
      case LeftOf(p) => e := p.left;
      case RightOf(p) => e := p.right;
    }

    /** The second loop of heap_insert and of heap_remove: from the root to place n0. */
    method Descend(path0: nat, k0: nat, ghost n0: nat) returns (parent: Slot, child: Slot)
      requires Wired() && 1 <= n0 <= |order| + 1 && path0 == Packed(Bits(n0)) && k0 == |Bits(n0)|
      ensures parent == (if n0 == 1 then Root else SlotOf(n0 / 2)) && child == SlotOf(n0)
    {
      var path, k := path0, k0;
      parent, child := Root, Root;
      ghost var t, bits := 1, Bits(n0);
      BitsLead(n0);
      while k > 0
        invariant k == |bits| && path == Packed(bits) && (forall j | 0 <= j < |bits| :: bits[j] < 2)
        invariant 1 <= t <= n0 == Walk(t, bits) && child == SlotOf(t)
            && parent == (if t == 1 then Root else SlotOf(t / 2))
      {
        WalkGrows(t, bits);
        WalkGrows(2 * t + bits[0], bits[1..]);
        var e := Load(child, t);
        parent := child;
        child := if path % 2 == 1 then RightOf(e) else LeftOf(e);
        path := path / 2;
        k := k - 1;
        t, bits := 2 * t + bits[0], bits[1..];
      }
    }

    /** `*slot = e;` for the slot of the place n behind all others, or of the last. */
    method Store(slot: Slot, e: Node?, ghost n: nat)
      requires Wired() && n <= |order| && slot == SlotOf(n + 1) && (n > 0 ==> order[Up(n)].node in rows)
      modifies this`min, this`rows, rows.Keys`left, rows.Keys`right
      ensures Table() && rows == LinkTo(order, old(rows), n, e) && min == if n == 0 then e else old(min)
    {
      if n > 0 { LookNear(order, rows, at, Up(n)); }
      match slot {
        case Root => min := e;
        case LeftOf(p) => p.left := e;
        case RightOf(p) => p.right := e;
      }
      rows := LinkTo(order, rows, n, e);
    }

    // ---------- Sifting ----------

    method SiftUpFrom(node: Node)
      requires Wired() && node in at
      modifies this, rows.Keys`left, rows.Keys`right, rows.Keys`parent
      ensures Wired() && rows.Keys == old(rows.Keys) && order == SiftUp(old(order), old(at)[node])
    {
      ghost var target := SiftUp(order, at[node]);
      LookNear(order, rows, at, at[node]);
      assert Look(Up(at[node]));
      while node.parent != null && Less(node.key, node.parent.key)
        invariant Wired() && rows.Keys == old(rows.Keys) && node in at && SiftUp(order, at[node]) == target
        invariant Fields(node) == RowAt(order, at[node])
        invariant node.parent != null ==>
            node.parent in at && at[node] > 0 && at[node.parent] == Up(at[node])
            && node.parent.key == order[Up(at[node])].key
        decreases at[node]
      {
        Swap(node.parent, node);
        LookNear(order, rows, at, at[node]);
        assert Look(Up(at[node]));
      }
    }

    method SmallestOf(child: Node) returns (smallest: Node)
      requires Wired() && child in at
      ensures smallest in at && at[smallest] == Smallest(order, at[child])
    {
      LookNear(order, rows, at, at[child]);
      assert Look(2 * at[child] + 1) && Look(2 * at[child] + 2);
      smallest := child;
      if child.left != null && Less(child.left.key, smallest.key) {
        smallest := child.left;
      }
      if child.right != null && Less(child.right.key, smallest.key) {
        smallest := child.right;
      }
    }

    /** One turn of the loop that walks down: lines 221-228. */
    method SinkOnce(child: Node) returns (settled: bool)
      requires Wired() && child in at
      modifies this, rows.Keys`left, rows.Keys`right, rows.Keys`parent
      ensures Wired() && rows.Keys == old(rows.Keys) && child in at
      ensures settled ==> order == old(order) && at == old(at) && SiftDown(order, at[child]) == (order, at[child])
      ensures !settled ==>
          |order| == |old(order)| && at[child] > old(at)[child]
          && SiftDown(order, at[child]) == SiftDown(old(order), old(at)[child])
    {
      var smallest := SmallestOf(child);
      SiftDownStep(order, at[child]);
      if smallest == child { return true; }
      Swap(child, smallest);
      settled := false;
    }

    method SiftDownFrom(child: Node)
      requires Wired() && child in at
      modifies this, rows.Keys`left, rows.Keys`right, rows.Keys`parent
      ensures Wired() && rows.Keys == old(rows.Keys) && child in at
      ensures SiftDown(old(order), old(at)[child]) == (order, at[child])
    {
      ghost var target := SiftDown(order, at[child]);
      var settled := false;
      while !settled
        invariant Wired() && rows.Keys == old(rows.Keys) && child in at && SiftDown(order, at[child]) == target
        invariant settled ==> target == (order, at[child])
        decreases |order| - at[child], !settled
      {
        settled := SinkOnce(child);
      }
    }

    // ---------- heap_insert ----------

    method Insert(newnode: Node)
      requires Valid() && newnode !in rows && nelts < U32_MAX
      modifies this, rows.Keys`left, rows.Keys`right, rows.Keys`parent, newnode`left, newnode`right, newnode`parent
      ensures Valid() && rows.Keys == old(rows.Keys) + {newnode} && nelts == old(nelts) + 1
      ensures order == Inserted(old(order), Item(newnode, newnode.key)) && newnode.key == old(newnode.key)
    {
      InsertedHeap(order, Item(newnode, newnode.key));
      Append(newnode);
      SiftUpFrom(newnode);
    }

    /** Lines 115-139: the slot of the left-most free place of the bottom row, and the parent above it. */
    method FreePlace(newnode: Node) returns (child: Slot)
      requires Wired() && newnode !in rows && nelts < U32_MAX
      modifies newnode`left, newnode`right, newnode`parent
      ensures Wired() && child == SlotOf(|order| + 1)
      ensures Fields(newnode) == Row(newnode.key, null, null, if order == [] then null else NodeAt(order, Up(|order|)))
    {
      newnode.left, newnode.right, newnode.parent := null, null, null;
      var path, k := PathTo(1 + nelts);
      var parent;
      parent, child := Descend(path, k, |order| + 1);
      newnode.parent := Load(parent, if order == [] then 1 else (|order| + 1) / 2);
    }

    /** Line 140: the node is linked, and its row joins the table. */
    method LinkLast(child: Slot, newnode: Node)
      requires Wired() && newnode !in rows && child == SlotOf(|order| + 1)
          && (order != [] ==> order[Up(|order|)].node in rows)
      modifies this`min, this`rows, rows.Keys`left, rows.Keys`right
      ensures Table() && rows == LinkTo(order, old(rows), |order|, newnode)[newnode := old(Fields(newnode))]
      ensures min == if order == [] then newnode else old(min)
    {
      Store(child, newnode, |order|);
      rows := rows[newnode := Fields(newnode)];
    }

    /** Lines 115-141: the new node behind all others. */
    method Append(newnode: Node)
      requires Wired() && newnode !in rows && nelts < U32_MAX
      modifies this, rows.Keys`left, rows.Keys`right, newnode`left, newnode`right, newnode`parent
      ensures Wired() && rows.Keys == old(rows.Keys) + {newnode}
      ensures order == old(order) + [Item(newnode, newnode.key)] && newnode in at && at[newnode] == |old(order)|
    {
      ghost var x := Item(newnode, newnode.key);
      AppendFacts(order, rows, at, x);
      ghost var order', rows', at' := order + [x],
          LinkTo(order, rows, |order|, newnode)[newnode := RowAt(order + [x], |order|)], at[newnode := |order|];
      var child := FreePlace(newnode);
      LinkLast(child, newnode);
      nelts := nelts + 1;
      View(order', rows', at');
    }

    // ---------- heap_remove ----------

    /** Lines 181-185: the last node is unlinked. */
    method Chop(max: Slot, child: Node)
      requires Wired() && nelts > 0 && max == SlotOf(|order|)
      requires order[|order| - 1].node == child
      modifies this, rows.Keys`left, rows.Keys`right
      ensures Wired() && order == old(order)[..|old(order)| - 1] && at == old(at) - {child}
          && rows.Keys == old(rows.Keys) - {child}
    {
      ghost var n := |order| - 1;
      ChopFacts(order, rows, at);
      ghost var order', rows', at' := order[..n], LinkTo(order, rows, n, null) - {child}, at - {child};
      UnlinkLast(max, child);
      nelts := nelts - 1;
      View(order', rows', at');
    }

    method UnlinkLast(max: Slot, child: Node)
      requires Wired() && nelts > 0 && max == SlotOf(|order|) && (|order| > 1 ==> order[Up(|order| - 1)].node in rows)
      modifies this`min, this`rows, rows.Keys`left, rows.Keys`right
      ensures Table() && rows == LinkTo(order, old(rows), |order| - 1, null) - {child}
      ensures min == if |order| == 1 then null else old(min)
    {
      Store(max, null, |order| - 1);
      rows := rows - {child};
    }

    /** Lines 166-184: the last node, found by the bits of the count. */
    method Last() returns (max: Slot, child: Node)
      requires Wired() && nelts > 0
      ensures max == SlotOf(|order|)
      ensures order[|order| - 1] == Item(child, child.key) && child in at && child in rows && at[child] == |order| - 1
    {
      var path, k := PathTo(nelts);
      var parent;
      parent, max := Descend(path, k, |order|);
      var e := Load(max, |order|);
      LookNear(order, rows, at, |order| - 1);
      child := e;
    }

    /** Lines 196-214: `child` takes over the links of `node`. */
    method TakeLinks(node: Node, child: Node, ghost l: Node?, ghost r: Node?, ghost g: Node?)
      requires node.left == l && node.right == r && node.parent == g && child != node
      requires l !in {node, child} && r !in {node, child} && g !in {node, child} && Differ(l, r) && Differ(l, g)
          && Differ(r, g)
      modifies this`min, child`left, child`right, child`parent, Opt(l)`parent, Opt(r)`parent, Opt(g)`left, Opt(g)`right
      ensures Fields(child) == Row(child.key, l, r, g)
      ensures l != null ==> l.parent == child
      ensures r != null ==> r.parent == child
      ensures g != null ==>
          Fields(g) == if old(g.left) == node then old(Fields(g)).(left := child) else old(Fields(g)).(right := child)
      ensures min == if g == null then child else old(min)
    {
      child.left := node.left;
      child.right := node.right;
      child.parent := node.parent;
      SetParent(child.left, child);
      SetParent(child.right, child);
      LinkDown(node.parent, node, child);
    }

    method TakeTable(node: Node, child: Node)
      requires Table() && node in rows && child !in rows && TakeReady(rows, node)
      modifies this`min, this`rows, rows.Keys`left, rows.Keys`right, rows.Keys`parent, child`left, child`right,
          child`parent
      ensures Table() && rows == TakeRows(old(rows), node, child, child.key)
      ensures min == if old(rows)[node].parent == null then child else old(min)
    {
      ghost var l, r, g := rows[node].left, rows[node].right, rows[node].parent;
      assert Fields(node) == rows[node];
      assert l != null ==> Fields(l) == rows[l];
      assert r != null ==> Fields(r) == rows[r];
      assert g != null ==> Fields(g) == rows[g];
      TakeLinks(node, child, l, r, g);
      forall e | e in rows && e != node ensures Fields(e) == TakeRow(rows[e], e, node, child, rows[node]) {
        if e != l && e != r && e != g { assert Fields(e) == old(Fields(e)); }
      }
      rows := TakeRows(rows, node, child, child.key);
    }

    method TakePlace(node: Node, child: Node)
      requires Wired() && node in at && child !in at
      modifies this, rows.Keys`left, rows.Keys`right, rows.Keys`parent, child`left, child`right, child`parent
      ensures Wired() && order == old(order)[old(at)[node] := Item(child, child.key)]
      ensures at == (old(at) - {node})[child := old(at)[node]] && rows.Keys == old(rows.Keys) - {node} + {child}
    {
      ghost var i, x := at[node], Item(child, child.key);
      ghost var order', rows', at' := order[i := x], TakeRows(rows, node, child, child.key), (at - {node})[child := i];
      TakeFacts(order, rows, at, node, x);
      TakeTable(node, child);
      View(order', rows', at');
    }

    /** Lines 220-236: down, then up. */
    method Settle(child: Node)
      requires Wired() && child in at
      modifies this, rows.Keys`left, rows.Keys`right, rows.Keys`parent
      ensures Wired() && rows.Keys == old(rows.Keys)
      ensures var t := SiftDown(old(order), old(at)[child]); order == SiftUp(t.0, t.1)
    {
      SiftDownFrom(child);
      SiftUpFrom(child);
    }

    /** Lines 195-236: `child` takes the place of `node` and is sifted. */
    method Refill(node: Node, child: Node)
      requires Wired() && node in at && child !in at
      modifies this, rows.Keys`left, rows.Keys`right, rows.Keys`parent, child`left, child`right, child`parent
      ensures Wired() && rows.Keys == old(rows.Keys) - {node} + {child}
      ensures var t := SiftDown(old(order)[old(at)[node] := Item(child, child.key)], old(at)[node]);
          order == SiftUp(t.0, t.1)
    {
      TakePlace(node, child);
      Settle(child);
    }

    /** Lines 163-236 */
    method RemoveMember(node: Node)
      requires Wired() && nelts > 0 && node in at
      modifies this, rows.Keys`left, rows.Keys`right, rows.Keys`parent
      ensures Wired() && order == Removed(old(order), old(at)[node]) && rows.Keys == old(rows.Keys) - {node}
    {
      ghost var s, i := order, at[node];
      var max, child := Last();
      ghost var last := |s| - 1;
      assert s[i].node == node && at[child] == last;
      Chop(max, child);
      // The slot of a lone node is the root pointer itself, so lines 189-191 find nothing left to do.
      if child != node {
        Exchange(old(rows.Keys), node, child);
        assert i != last && at[node] == i;
        RemovedInner(s, i);
        Refill(node, child);
      } else {
        assert i == last;
      }
    }

    /** heap_remove, for a member at any place. */
    method Remove(node: Node?)
      requires Valid() && (nelts > 0 ==> node != null && node in at)
      modifies this, rows.Keys`left, rows.Keys`right, rows.Keys`parent
      ensures Valid()
      ensures old(nelts) == 0 ==> order == []
      ensures old(nelts) > 0 ==>
          order == Removed(old(order), old(at)[node]) && rows.Keys == old(rows.Keys) - {node} && nelts == old(nelts) - 1
    {
      if nelts == 0 { return; }
      RemovedHeap(order, at[node]);
      RemoveMember(node);
    }

    /** heap_dequeue */
    method Dequeue()
      requires Valid()
      modifies this, rows.Keys`left, rows.Keys`right, rows.Keys`parent
      ensures Valid() && order == if old(order) == [] then [] else Removed(old(order), 0)
    {
      if order != [] { LookNear(order, rows, at, 0); }
      Remove(min);
    }
  }
}
