/** src/queue.h: the circular doubly linked list behind every queue of the loop. A head node and its
    items form one ring; an item needs no pointer to the head to leave it. */
module Queue {
  import opened Common

  class Node {
    var next: Node
    var prev: Node

    /** uv__queue_init on fresh storage. */
    constructor ()
      ensures Ring([this])
    {
      next, prev := this, this;
    }
  }

  ghost predicate Distinct(s: seq<Node>) { forall i, j | 0 <= i < j < |s| :: s[i] != s[j] }

  ghost predicate Disjoint(a: seq<Node>, b: seq<Node>) { forall x | x in a :: x !in b }

  ghost predicate Joins(x: Node, y: Node)
    reads x, y
  {
    x.next == y && y.prev == x
  }

  /** Neighbours point at each other. */
  ghost predicate Linked(s: seq<Node>)
    reads s
  {
    forall i | 0 < i < |s| :: Joins(s[i - 1], s[i])
  }

  /** Different nodes, each linked to the next; the outer links of the two ends may point anywhere. */
  ghost predicate Chain(s: seq<Node>)
    reads s
  {
    match s == []
    case true => true
    case false => Distinct(s) && Linked(s)
  }

  /** The nodes of `s`, in this order, are a whole ring. */
  ghost predicate Ring(s: seq<Node>)
    reads s
  {
    s != [] && Chain(s) && s[|s| - 1].next == s[0] && s[0].prev == s[|s| - 1]
  }

  // ---------- Chains ----------

  lemma {:induction false} Parts(a: seq<Node>, b: seq<Node>, s: seq<Node>)
    requires Chain(s) && s == a + b
    ensures Chain(a) && Chain(b) && Disjoint(a, b) && (a != [] && b != [] ==> Joins(a[|a| - 1], b[0]))
  {
    assert forall i | 0 <= i < |a| :: a[i] == s[i];
    assert forall i | 0 <= i < |b| :: b[i] == s[|a| + i];
    forall i | 0 < i < |b| ensures Joins(b[i - 1], b[i]) { assert Joins(s[|a| + i - 1], s[|a| + i]); }
    if a != [] && b != [] { assert Joins(s[|a| - 1], s[|a|]); }
  }

  lemma {:induction false} Join(a: seq<Node>, b: seq<Node>)
    requires Chain(a) && Chain(b) && Disjoint(a, b) && (a != [] && b != [] ==> Joins(a[|a| - 1], b[0]))
    ensures Chain(a + b)
  {
    var s := a + b;
    forall i | 0 < i < |s| ensures Joins(s[i - 1], s[i]) {
      if i < |a| { assert Joins(a[i - 1], a[i]); } else if i > |a| { assert Joins(b[i - |a| - 1], b[i - |a|]); }
    }
    forall i, j | 0 <= i < j < |s| ensures s[i] != s[j] {
      if i >= |a| {
        assert b[i - |a|] != b[j - |a|];
      } else if j < |a| {
        assert a[i] != a[j];
      } else {
        assert s[i] in a && s[j] in b;
      }
    }
  }

  /** Only the outer links of the two ends were written. */
  twostate predicate Untouched(s: seq<Node>)
    reads s
  {
    forall x | x in s :: (x != s[|s| - 1] ==> x.next == old(x.next)) && (x != s[0] ==> x.prev == old(x.prev))
  }

  twostate lemma {:induction false} Kept(s: seq<Node>)
    requires old(Chain(s)) && Untouched(s)
    ensures Chain(s)
  {
    forall i | 0 < i < |s| ensures Joins(s[i - 1], s[i]) {
      assert old(Joins(s[i - 1], s[i])) && s[i - 1] != s[|s| - 1] && s[i] != s[0];
    }
  }

  twostate lemma {:induction false} KeptRing(s: seq<Node>)
    requires old(Ring(s)) && (forall x | x in s :: x.next == old(x.next) && x.prev == old(x.prev))
    ensures Ring(s) && s[0].prev == old(s[0].prev)
  {
    Kept(s);
  }

  // ---------- What a ring is ----------

  /** No node is special: the same ring can be read from any of its nodes. */
  lemma {:induction false} Turn(a: seq<Node>, b: seq<Node>)
    requires Ring(a + b)
    ensures Ring(b + a)
  {
    Parts(a, b, a + b);
    if a == [] || b == [] {
      assert a + b == b + a;
    } else {
      Join(b, a);
    }
  }

  /** The links alone say which items a head has, and in which order. */
  lemma {:induction false} OneReading(h: Node, a: seq<Node>, b: seq<Node>)
    requires Ring([h] + a) && Ring([h] + b)
    ensures a == b
  {
    var s, t := [h] + a, [h] + b;
    NotLonger(s, t);
    NotLonger(t, s);
    Prefix(s, t, |s|);
    assert s[..|s|] == s && t[..|s|] == t;
    assert a == s[1..] && b == t[1..];
  }

  lemma {:induction false} NotLonger(s: seq<Node>, t: seq<Node>)
    requires Ring(s) && Ring(t) && s[0] == t[0]
    ensures |t| <= |s|
  {
    if |s| < |t| {
      Prefix(s, t, |s|);
    }
  }

  lemma {:induction false} Prefix(s: seq<Node>, t: seq<Node>, n: nat)
    requires Chain(s) && Chain(t) && s != [] && t != [] && s[0] == t[0] && n <= |s| && n <= |t|
    ensures s[..n] == t[..n]
  {
    if n > 1 {
      Prefix(s, t, n - 1);
      assert s[n - 2] == s[..n - 1][n - 2] == t[..n - 1][n - 2] == t[n - 2];
      assert Joins(s[n - 1 - 1], s[n - 1]) && Joins(t[n - 1 - 1], t[n - 1]);
      assert s[..n] == s[..n - 1] + [s[n - 1]] && t[..n] == t[..n - 1] + [t[n - 1]];
    }
  }

  // ---------- The operations ----------

  /** uv__queue_init on a node in use. */
  method Init(q: Node)
    modifies q
    ensures Ring([q])
  {
    q.next := q;
    q.prev := q;
  }

  /** uv__queue_empty. */
  method Empty(h: Node, ghost items: seq<Node>) returns (r: bool)
    requires Ring([h] + items)
    ensures r == (items == [])
  {
    Parts([h], items, [h] + items);
    r := h == h.next;
  }

  /** uv__queue_head: the first item. */
  method Head(h: Node, ghost items: seq<Node>) returns (q: Node)
    requires Ring([h] + items)
    ensures q == if items == [] then h else items[0]
  {
    Parts([h], items, [h] + items);
    q := h.next;
  }

  /** uv__queue_insert_head. */
  method InsertHead(h: Node, q: Node, ghost items: seq<Node>)
    requires Ring([h] + items) && q !in [h] + items
    modifies h, h.next, q
    ensures Ring([h, q] + items)
  {
    Parts([h], items, [h] + items);
    q.next := h.next;
    q.prev := h;
    q.next.prev := q;
    h.next := q;
    Kept(items);
    Join([h], [q]);
    assert [h] + [q] == [h, q];
    Join([h, q], items);
  }

  /** uv__queue_insert_tail. */
  method InsertTail(h: Node, q: Node, ghost items: seq<Node>)
    requires Ring([h] + items) && q !in [h] + items
    modifies h, h.prev, q
    ensures Ring([h] + items + [q])
  {
    q.next := h;
    q.prev := h.prev;
    q.prev.next := q;
    h.prev := q;
    Kept([h] + items);
    Join([h] + items, [q]);
  }

  /** uv__queue_remove: the item leaves without naming its head, and keeps its own two links. */
  method Remove(q: Node, ghost before: seq<Node>, ghost after: seq<Node>)
    requires before + after != [] && Ring(before + [q] + after)
    modifies q.prev`next, q.next`prev
    ensures Ring(before + after) && q.next == old(q.next) && q.prev == old(q.prev)
  {
    Parts(before + [q], after, before + [q] + after);
    Parts(before, [q], before + [q]);
    assert before + [q] + after == before + ([q] + after);
    Parts(before, [q] + after, before + [q] + after);
    q.prev.next := q.next;
    q.next.prev := q.prev;
    Kept(before);
    Kept(after);
    Join(before, after);
  }

  /** uv__queue_add: the items of `n` go behind those of `h`; `n` itself is dropped. */
  method Add(h: Node, n: Node, ghost a: seq<Node>, ghost b: seq<Node>)
    requires Ring([h] + a) && Ring([n] + b) && Disjoint([h] + a, [n] + b)
    modifies h, h.prev, n.next, n.prev
    ensures Ring([h] + a + b)
  {
    Parts([n], b, [n] + b);
    ghost var s := [h] + a;
    assert b != [] ==> n.prev == b[|b| - 1] && n.next == b[0] && s[|a|] == h.prev && h.prev in s;
    assert forall x | x in b :: x in [n] + b && x !in [h] + a;
    h.prev.next := n.next;
    n.next.prev := h.prev;
    h.prev := n.prev;
    h.prev.next := h;
    Kept(s);
    Kept(b);
    Join(s, b);
  }

  /** uv__queue_split: the items from `q` on move to the head `n`, whose own links are overwritten. */
  method Split(h: Node, q: Node, n: Node, ghost a: seq<Node>, ghost b: seq<Node>)
    requires Ring([h] + a + ([q] + b)) && n !in [h] + a + ([q] + b)
    modifies h, h.prev, q, q.prev, n
    ensures Ring([h] + a) && Ring([n] + ([q] + b))
  {
    ghost var s, t := [h] + a, [q] + b;
    Parts(s, t, s + t);
    assert s[0] == h && h in s && q in t;
    assert q.prev == s[|a|] && h.prev == (s + t)[|s + t| - 1] == t[|b|];
    n.prev := h.prev;
    n.prev.next := n;
    n.next := q;
    h.prev := q.prev;
    h.prev.next := h;
    q.prev := n;
    Kept(s);
    Kept(t);
    Join([n], t);
  }

  /** uv__queue_move: all items change heads and the old head is left empty. */
  method Move(h: Node, n: Node, ghost items: seq<Node>)
    requires Ring([h] + items) && n !in [h] + items
    modifies h, h.prev, h.next, n
    ensures Ring([h]) && Ring([n] + items)
  {
    var empty := Empty(h, items);
    if empty {
      Init(n);
      assert [h] + items == [h] && [n] + items == [n];
    } else {
      Parts([h], items, [h] + items);
      assert [items[0]] + items[1..] == items && [h] + [] == [h];
      Split(h, h.next, n, [], items[1..]);
    }
  }

  // ---------- The visiting loop, on values ----------

  /** What a callback can do to the queue: unlink any node that is on it, or append a new one. */
  datatype Act = Close(x: Node) | Open(x: Node)

  /** The queue itself, and the items moved aside that still wait for their turn. */
  datatype Lists = Lists(kept: seq<Node>, rest: seq<Node>)

  function Acted(s: Lists, a: Act): Lists {
    match a
    case Close(x) => Lists(Without(s.kept, x), Without(s.rest, x))
    case Open(x) => if x in s.kept || x in s.rest then s else s.(kept := s.kept + [x])
  }

  function ActedAll(s: Lists, acts: seq<Act>): Lists
    decreases |acts|
  {
    if acts == [] then s else ActedAll(Acted(s, acts[0]), acts[1..])
  }

  function Acts(script: seq<seq<Act>>, k: nat): seq<Act> { if k < |script| then script[k] else [] }

  function Later(script: seq<seq<Act>>): seq<seq<Act>> { if script == [] then [] else script[1..] }

  /** The first waiting item goes to the back of the queue, and then its callback acts. */
  function Turned(s: Lists, acts: seq<Act>): (t: Lists)
    requires s.rest != []
    ensures |t.rest| < |s.rest|
  {
    ActedShrinks(Lists(s.kept + [s.rest[0]], s.rest[1..]), acts);
    ActedAll(Lists(s.kept + [s.rest[0]], s.rest[1..]), acts)
  }

  /** The items visited, in order, and the queue at the end. */
  datatype Walk = Walk(order: seq<Node>, kept: seq<Node>)

  function Walked(s: Lists, script: seq<seq<Act>>): Walk
    decreases |s.rest|
  {
    if s.rest == [] then Walk([], s.kept)
    else
      var w := Walked(Turned(s, Acts(script, 0)), Later(script));
      w.(order := [s.rest[0]] + w.order)
  }

  lemma {:induction false} ActedShrinks(s: Lists, acts: seq<Act>)
    ensures |ActedAll(s, acts).rest| <= |s.rest|
    decreases |acts|
  {
    if acts != [] {
      if acts[0].Close? { WithoutRemovesAll(s.rest, acts[0].x); }
      ActedShrinks(Acted(s, acts[0]), acts[1..]);
    }
  }

  lemma {:induction false} ActedRest(s: Lists, acts: seq<Act>, x: Node)
    ensures x in ActedAll(s, acts).rest <==> x in s.rest && Close(x) !in acts
    decreases |acts|
  {
    if acts != [] {
      if acts[0].Close? { WithoutMember(s.rest, acts[0].x, x); }
      ActedRest(Acted(s, acts[0]), acts[1..], x);
    }
  }

  lemma {:induction false} OrderWaits(s: Lists, script: seq<seq<Act>>, x: Node)
    requires x in Walked(s, script).order
    ensures x in s.rest
    decreases |s.rest|
  {
    if x != s.rest[0] {
      var acts := Acts(script, 0);
      OrderWaits(Turned(s, acts), Later(script), x);
      ActedRest(Lists(s.kept + [s.rest[0]], s.rest[1..]), acts, x);
    }
  }

  /** Exactly which waiting items are visited, whatever the callbacks do: an item is visited, and no
      callback made before closed it; or it is not, and some callback that was made closed it. */
  lemma {:induction false} VisitsExactly(s: Lists, script: seq<seq<Act>>, x: Node) returns (k: nat)
    requires x in s.rest
    ensures var order := Walked(s, script).order;
      if x in order then k < |order| && order[k] == x && forall j | 0 <= j < k :: Close(x) !in Acts(script, j)
      else k < |order| && Close(x) in Acts(script, k)
    decreases |s.rest|
  {
    var acts, aside := Acts(script, 0), Lists(s.kept + [s.rest[0]], s.rest[1..]);
    var w := Walked(Turned(s, acts), Later(script));
    k := 0;
    if x != s.rest[0] {
      ActedRest(aside, acts, x);
      if Close(x) in acts {
        if x in w.order { OrderWaits(Turned(s, acts), Later(script), x); }
      } else {
        var k' := VisitsExactly(Turned(s, acts), Later(script), x);
        forall j | 0 < j ensures Acts(script, j) == Acts(Later(script), j - 1) {}
        k := k' + 1;
      }
    }
  }

  /** If no callback acts, every item is visited, in order, and the queue ends as it was. */
  lemma {:induction false} VisitsAll(s: Lists)
    ensures Walked(s, []) == Walk(s.rest, s.kept + s.rest)
    decreases |s.rest|
  {
    if s.rest == [] {
      assert s.kept + [] == s.kept;
    } else {
      VisitsAll(Turned(s, []));
      assert s.kept + [s.rest[0]] + s.rest[1..] == s.kept + s.rest;
    }
  }

  // ---------- The visiting loop, on nodes ----------

  /** The two rings, of different nodes, and the flags that tell which nodes are on one. */
  ghost predicate Visiting(h: Node, n: Node, s: Lists, linked: set<Node>)
    reads h, n, s.kept, s.rest
  {
    match Distinct([h] + s.kept + ([n] + s.rest))
    case false => false
    case true =>
      && Ring([h] + s.kept) && Ring([n] + s.rest) && linked == Members(s)
  }

  ghost function Members(s: Lists): set<Node> { (set x | x in s.kept) + (set x | x in s.rest) }

  lemma {:induction false} WithoutAbsent(s: seq<Node>, x: Node)
    requires x !in s
    ensures Without(s, x) == s
  {
    if s != [] {
      WithoutAbsent(s[1..], x);
      assert s == [s[0]] + s[1..];
    }
  }

  lemma {:induction false} WithoutAt(s: seq<Node>, i: nat)
    requires Distinct(s) && i < |s|
    ensures Without(s, s[i]) == s[..i] + s[i + 1..]
  {
    var t := s[1..];
    assert forall j | 0 <= j < |t| :: t[j] == s[j + 1];
    if i == 0 {
      WithoutAbsent(t, s[0]);
    } else {
      WithoutAt(t, i - 1);
      assert s[..i] == [s[0]] + t[..i - 1] && s[i + 1..] == t[i..];
    }
  }

  lemma {:induction false} DistinctParts(a: seq<Node>, b: seq<Node>)
    ensures Distinct(a + b) <==> Distinct(a) && Distinct(b) && Disjoint(a, b)
  {
    var s := a + b;
    assert forall i | 0 <= i < |a| :: s[i] == a[i];
    assert forall i | 0 <= i < |b| :: s[|a| + i] == b[i];
    if Distinct(s) {
      forall i, j | 0 <= i < |a| && 0 <= j < |b| ensures a[i] != b[j] { assert s[i] != s[|a| + j]; }
    }
    if Distinct(a) && Distinct(b) && Disjoint(a, b) {
      forall i, j | 0 <= i < j < |s| ensures s[i] != s[j] {
        if i >= |a| {
          assert b[i - |a|] != b[j - |a|];
        } else if j < |a| {
          assert a[i] != a[j];
        } else {
          assert s[i] in a && s[j] in b;
        }
      }
    }
  }

  lemma {:induction false} TwoRings(h: Node, n: Node, s: Lists)
    requires Distinct([h] + s.kept + ([n] + s.rest))
    ensures Disjoint([h] + s.kept, [n] + s.rest) && Disjoint([n] + s.rest, [h] + s.kept)
    ensures Distinct([h] + s.kept) && Distinct([n] + s.rest) && Distinct(s.kept) && Distinct(s.rest)
    ensures h !in s.kept && n !in s.rest
  {
    DistinctParts([h] + s.kept, [n] + s.rest);
    DistinctParts([h], s.kept);
    DistinctParts([n], s.rest);
  }

  lemma {:induction false} Ends(h: Node, items: seq<Node>)
    requires Ring([h] + items)
    ensures (h.next == h || h.next in items) && (h.prev == h || h.prev in items)
  {
    Parts([h], items, [h] + items);
    if items != [] { assert h.prev == items[|items| - 1]; }
  }

  lemma {:induction false} Beside(q: Node, before: seq<Node>, after: seq<Node>)
    requires before + after != [] && Ring(before + [q] + after)
    ensures q.prev in before + after && q.next in before + after && q !in before + after
  {
    var s := before + [q] + after;
    Parts(before + [q], after, s);
    Parts(before, [q], before + [q]);
    assert before + [q] + after == before + ([q] + after);
    Parts(before, [q] + after, s);
    Parts([q], after, [q] + after);
    if before == [] { assert q.prev == s[|s| - 1] == after[|after| - 1]; }
    if after == [] { assert q.next == s[0] == before[0]; }
  }

  /** Taking a node off one of two rings. */
  method TakeOff(x: Node, ghost before: seq<Node>, ghost after: seq<Node>, ghost other: seq<Node>)
    requires before + after != [] && Ring(before + [x] + after) && Ring(other) && Disjoint(other, before + [x] + after)
    modifies before, after
    ensures Ring(before + after) && Ring(other)
  {
    Beside(x, before, after);
    assert forall y | y in before + after :: y in before || y in after;
    assert forall y | y in before || y in after :: y in before + [x] + after;
    Remove(x, before, after);
    KeptRing(other);
  }

  lemma {:induction false} Locate(h: Node, items: seq<Node>, x: Node) returns (before: seq<Node>, after: seq<Node>)
    requires Distinct([h] + items) && x in items
    ensures [h] + items == before + [x] + after && before + after == [h] + Without(items, x) && before != []
  {
    DistinctParts([h], items);
    var i :| 0 <= i < |items| && items[i] == x;
    WithoutAt(items, i);
    before, after := [h] + items[..i], items[i + 1..];
  }

  lemma {:induction false} WithoutMembers(s: seq<Node>, x: Node)
    ensures forall y | y in Without(s, x) :: y in s && y != x
    ensures forall y | y in s && y != x :: y in Without(s, x)
  {
    forall y | y in Without(s, x) ensures y in s && y != x { WithoutMember(s, x, y); }
    forall y | y in s && y != x ensures y in Without(s, x) { WithoutMember(s, x, y); }
  }

  lemma {:induction false} StillDistinct(h: Node, n: Node, s: Lists, a: Act)
    requires Distinct([h] + s.kept + ([n] + s.rest)) && (a.Open? ==> a.x !in [h] + s.kept + ([n] + s.rest))
    ensures var t := Acted(s, a); Distinct([h] + t.kept + ([n] + t.rest))
    ensures Members(Acted(s, a)) == if a.Open? then Members(s) + {a.x} else Members(s) - {a.x}
  {
    TwoRings(h, n, s);
    var t := Acted(s, a);
    if a.Open? {
      assert [h] + t.kept + ([n] + t.rest) == [h] + s.kept + ([a.x] + ([n] + s.rest));
      DistinctParts([a.x], [n] + s.rest);
      DistinctParts([h] + s.kept, [a.x] + ([n] + s.rest));
    } else {
      WithoutMembers(s.kept, a.x);
      WithoutMembers(s.rest, a.x);
      assert h !in t.kept && n !in t.rest && (forall y | y in [h] + t.kept :: y in [h] + s.kept);
      assert forall y | y in [n] + t.rest :: y in [n] + s.rest;
      WithoutDistinct(s.kept, a.x);
      WithoutDistinct(s.rest, a.x);
      DistinctParts([h], t.kept);
      DistinctParts([n], t.rest);
      DistinctParts([h] + t.kept, [n] + t.rest);
    }
  }

  lemma {:induction false} WithoutDistinct(s: seq<Node>, x: Node)
    requires Distinct(s)
    ensures Distinct(Without(s, x))
  {
    if x in s {
      var i :| 0 <= i < |s| && s[i] == x;
      WithoutAt(s, i);
    } else {
      WithoutAbsent(s, x);
    }
  }

  /** The ring that `x` is on, around it, and the other one. */
  lemma {:induction false} RingOf(h: Node, n: Node, s: Lists, x: Node)
      returns (before: seq<Node>, after: seq<Node>, other: seq<Node>)
    requires Distinct([h] + s.kept + ([n] + s.rest)) && x in Members(s)
    ensures before + after != [] && Disjoint(other, before + [x] + after)
    ensures forall y | y in before || y in after :: y == h || y == n || y in s.kept || y in s.rest
    ensures var t := Acted(s, Close(x));
      || (before + [x] + after == [h] + s.kept && before + after == [h] + t.kept
          && other == [n] + s.rest == [n] + t.rest)
      || (before + [x] + after == [n] + s.rest && before + after == [n] + t.rest
          && other == [h] + s.kept == [h] + t.kept)
  {
    TwoRings(h, n, s);
    if x in s.kept {
      assert x in [h] + s.kept && (x in s.rest ==> x in [n] + s.rest);
      WithoutAbsent(s.rest, x);
      before, after := Locate(h, s.kept, x);
      other := [n] + s.rest;
    } else {
      WithoutAbsent(s.kept, x);
      before, after := Locate(n, s.rest, x);
      other := [h] + s.kept;
    }
    assert forall y | y in before || y in after :: y in before + [x] + after;
  }

  /** A callback unlinks a node, whichever ring it is on. */
  method CloseNode(h: Node, n: Node, x: Node, ghost s: Lists, ghost linked: set<Node>)
    requires Visiting(h, n, s, linked) && x in linked
    modifies h, n, s.kept, s.rest
    ensures Visiting(h, n, Acted(s, Close(x)), linked - {x})
  {
    StillDistinct(h, n, s, Close(x));
    ghost var before, after, other := RingOf(h, n, s, x);
    assert forall i | 0 <= i < |before| :: before[i] in before;
    assert forall i | 0 <= i < |after| :: after[i] in after;
    TakeOff(x, before, after, other);
  }

  /** A callback appends a new node. */
  method OpenNode(h: Node, n: Node, x: Node, ghost s: Lists, ghost linked: set<Node>)
    requires Visiting(h, n, s, linked) && x !in linked && x != h && x != n
    modifies h, s.kept, x
    ensures Visiting(h, n, Acted(s, Open(x)), linked + {x})
  {
    TwoRings(h, n, s);
    StillDistinct(h, n, s, Open(x));
    Ends(h, s.kept);
    InsertTail(h, x, s.kept);
    KeptRing([n] + s.rest);
    assert [h] + s.kept + [x] == [h] + (s.kept + [x]);
  }

  /** The item whose turn it is goes from the front of `n` to the back of `h`. */
  method TakeFirst(h: Node, n: Node, ghost s: Lists, ghost linked: set<Node>) returns (q: Node)
    requires Visiting(h, n, s, linked) && s.rest != []
    modifies h, n, s.kept, s.rest
    ensures q == s.rest[0] && Visiting(h, n, Lists(s.kept + [q], s.rest[1..]), linked)
  {
    TwoRings(h, n, s);
    Turning(h, n, s);
    Ends(h, s.kept);
    q := Head(n, s.rest);
    ghost var left := s.rest[1..];
    assert [n] + s.rest == [n] + [q] + left;
    TakeOff(q, [n], left, [h] + s.kept);
    label between:
    InsertTail(h, q, s.kept);
    KeptRing@between([n] + left);
    assert [h] + s.kept + [q] == [h] + (s.kept + [q]);
  }

  lemma {:induction false} Turning(h: Node, n: Node, s: Lists)
    requires Distinct([h] + s.kept + ([n] + s.rest)) && s.rest != []
    ensures var t := Lists(s.kept + [s.rest[0]], s.rest[1..]);
      && Distinct([h] + t.kept + ([n] + t.rest)) && Members(t) == Members(s) && s.rest[0] !in [h] + s.kept
      && Disjoint([n] + t.rest, [h] + t.kept)
  {
    var q, left := s.rest[0], s.rest[1..];
    TwoRings(h, n, s);
    assert [n] + s.rest == [n] + ([q] + left) && s.rest == [q] + left;
    DistinctParts([n], [q] + left);
    DistinctParts([q], left);
    DistinctParts([n], left);
    DistinctParts([h] + s.kept, [q]);
    assert [h] + (s.kept + [q]) == [h] + s.kept + [q];
    DistinctParts([h] + s.kept + [q], [n] + left);
  }

  /** The nodes that a callback may touch. */
  ghost predicate Within(acts: seq<Act>, h: Node, n: Node, all: set<Node>) {
    forall a <- acts :: a.x in all && a.x != h && a.x != n
  }

  /** What a callback does, step by step; a node that is not on the queue is not unlinked again. */
  method Callback(h: Node, n: Node, acts: seq<Act>, linked: set<Node>, ghost s: Lists, ghost all: set<Node>)
    returns (now: set<Node>, ghost t: Lists)
    requires Visiting(h, n, s, linked) && linked <= all && Within(acts, h, n, all)
    modifies h, n, all
    ensures t == ActedAll(s, acts) && Visiting(h, n, t, now) && now <= all
  {
    now, t := linked, s;
    var k := 0;
    while k < |acts|
      invariant k <= |acts| && Visiting(h, n, t, now) && now <= all && ActedAll(t, acts[k..]) == ActedAll(s, acts)
    {
      assert acts[k..][0] == acts[k] && acts[k..][1..] == acts[k + 1..];
      now := ActOn(h, n, acts[k], now, t, all);
      t := Acted(t, acts[k]);
      k := k + 1;
    }
  }

  method ActOn(h: Node, n: Node, a: Act, linked: set<Node>, ghost s: Lists, ghost all: set<Node>)
      returns (now: set<Node>)
    requires Visiting(h, n, s, linked) && linked <= all && a.x in all && a.x != h && a.x != n
    modifies h, n, all
    ensures Visiting(h, n, Acted(s, a), now) && now <= all
  {
    now := linked;
    match a
    case Close(x) =>
      if x in linked {
        CloseNode(h, n, x, s, linked);
        now := now - {x};
      } else {
        WithoutAbsent(s.kept, x);
        WithoutAbsent(s.rest, x);
      }
    case Open(x) =>
      if x !in linked {
        OpenNode(h, n, x, s, linked);
        now := now + {x};
      }
  }

  function From(script: seq<seq<Act>>, k: nat): seq<seq<Act>> { if k < |script| then script[k..] else [] }

  /** uv__queue_move at the start. */
  method MoveAside(h: Node, n: Node, linked: set<Node>, ghost items: seq<Node>)
    requires Ring([h] + items) && n !in [h] + items && linked == set x | x in items
    modifies h, n, items
    ensures Visiting(h, n, Lists([], items), linked)
  {
    Ends(h, items);
    Parts([h], items, [h] + items);
    Move(h, n, items);
    assert [h] + [] == [h];
    assert n !in [h] && h !in [n] + items;
    DistinctParts([h], [n] + items);
  }

  /** One turn of the loop: an item and its callback. */
  method TakeTurn(h: Node, n: Node, acts: seq<Act>, linked: set<Node>, ghost s: Lists, ghost all: set<Node>)
    returns (q: Node, now: set<Node>, done: bool, ghost t: Lists)
    requires Visiting(h, n, s, linked) && linked <= all && s.rest != []
    requires Within(acts, h, n, all)
    modifies h, n, all
    ensures q == s.rest[0] && t == Turned(s, acts) && Visiting(h, n, t, now) && now <= all && done == (t.rest == [])
  {
    q := TakeFirst(h, n, s, linked);
    now, t := Callback(h, n, acts, linked, Lists(s.kept + [q], s.rest[1..]), all);
    done := Empty(n, t.rest);
  }

  /** How the loop visits a queue that its callbacks may change: move it aside, then take the first
      item, put it back and call it, until none is left. */
  method VisitAll(h: Node, n: Node, script: seq<seq<Act>>, linked: set<Node>, ghost items: seq<Node>,
      ghost all: set<Node>)
    returns (visited: seq<Node>, now: set<Node>, ghost kept: seq<Node>)
    requires Ring([h] + items) && n !in [h] + items && linked == (set x | x in items) && linked <= all
    requires forall k | 0 <= k < |script| :: Within(script[k], h, n, all)
    modifies h, n, all
    ensures visited == Walked(Lists([], items), script).order && kept == Walked(Lists([], items), script).kept
    ensures Ring([h] + kept) && Ring([n]) && now == set x | x in kept
  {
    ghost var whole, s := Walked(Lists([], items), script), Lists([], items);
    MoveAside(h, n, linked, items);
    now, visited := linked, [];
    var k := 0;
    assert From(script, 0) == script && [] + whole.order == whole.order;
    var done := Empty(n, s.rest);
    while !done
      invariant Visiting(h, n, s, now) && now <= all && done == (s.rest == [])
          && Halfway(whole, visited, s, From(script, k))
      decreases |s.rest|
    {
      WalkNext(whole, s, script, k, visited);
      var q;
      q, now, done, s := TakeTurn(h, n, Acts(script, k), now, s, all);
      visited, k := visited + [q], k + 1;
    }
    kept := s.kept;
    assert [n] + s.rest == [n] && visited + [] == visited;
  }

  ghost predicate Halfway(whole: Walk, visited: seq<Node>, s: Lists, script: seq<seq<Act>>) {
    match whole.kept == Walked(s, script).kept
    case true => whole.order == visited + Walked(s, script).order
    case false => false
  }

  lemma {:induction false} WalkNext(whole: Walk, s: Lists, script: seq<seq<Act>>, k: nat, visited: seq<Node>)
    requires s.rest != [] && Halfway(whole, visited, s, From(script, k))
    ensures Halfway(whole, visited + [s.rest[0]], Turned(s, Acts(script, k)), From(script, k + 1))
  {
    assert Acts(From(script, k), 0) == Acts(script, k) && Later(From(script, k)) == From(script, k + 1);
    var w := Walked(Turned(s, Acts(script, k)), From(script, k + 1));
    assert visited + ([s.rest[0]] + w.order) == visited + [s.rest[0]] + w.order;
  }
}
