/** The in-order cursor of the queue: `begin` and `next` walk the arena
    through `left`, `right`, `link` and `parent`, and the ghost shape says
    which listing position the cursor stands on. */
module Cursor {
  import opened Listing
  import opened Bst
  import opened Arena

  /** From the tree node on path `d`, follow `left` as far as it goes: the
      node reached holds the first entry of that subtree's listing. */
  method Leftmost<T>(ns: seq<Rec<T>>, i: nat, ghost s: Shape, ghost d: seq<bool>) returns (j: nat)
    requires Fits(ns, s) && Sub(s, d).Cell? && i == Sub(s, d).id
    ensures Start(s, d) < |Order(s)| && j == Order(s)[Start(s, d)]
  {
    j := i;
    ghost var e := d;
    FitsSub(ns, s, d);
    while ns[j].left.Some?
      invariant Sub(s, e).Cell? && j == Sub(s, e).id && Fits(ns, Sub(s, e))
      invariant Start(s, e) == Start(s, d)
      decreases |Order(Sub(s, e))|
    {
      j := ns[j].left.value;
      SubSnoc(s, e, false);
      e := e + [false];
    }
    NodeAt(Sub(s, e), 0);
    SubAt(s, e, 0);
  }

  /** begin(): the cursor goes to the node holding the first entry of the
      listing, or to null when the queue is empty. */
  method Begin<T>(h: Heap<T>, ghost s: Shape) returns (h': Heap<T>)
    requires Holds(h, s)
    ensures h' == h.(curr := h'.curr)
    ensures s.Nil? ==> h'.curr == None
    ensures s.Cell? ==> 0 < |Order(s)| && h'.curr == Some(Order(s)[0])
  {
    var curr := h.root;
    if curr.Some? {
      assert Sub(s, []) == s;
      var first := Leftmost(h.nodes, curr.value, s, []);
      curr := Some(first);
    }
    h' := h.(curr := curr);
  }

  /** next(value, priority) on a cursor standing on listing position `k`:
      it writes the k-th entry of the listing, and moves to position k + 1
      returning true when there is one; on the last entry it returns false
      and leaves the cursor on the root. A null cursor writes nothing. */
  method Next<T>(h: Heap<T>, value0: T, prio0: int, ghost s: Shape, ghost k: nat)
    returns (more: bool, value: T, prio: int, h': Heap<T>)
    requires Holds(h, s) && Live(h.nodes, s)
    requires h.curr.Some? ==> k < |Order(s)| && h.curr == Some(Order(s)[k])
    ensures h' == h.(curr := h'.curr)
    ensures h.curr.None? ==> !more && value == value0 && prio == prio0 && h' == h
    ensures h.curr.Some? ==> k < |Elems(Abs(h.nodes, s))| && Elems(Abs(h.nodes, s))[k] == Entry(prio, value)
    ensures h.curr.Some? ==> (more <==> k + 1 < |Order(s)|)
    ensures h.curr.Some? && more ==> h'.curr == Some(Order(s)[k + 1])
    ensures h.curr.Some? && !more ==> h'.curr == h.root
  {
    if h.curr.None? {
      return false, value0, prio0, h;
    }
    var t;
    more, value, prio, t := Step(h, s, k);
    h' := h.(curr := Some(t));
  }

  /** next() as its comment describes it: after the last entry the cursor
      becomes null, so every further call returns false and writes
      nothing. */
  method NextFixed<T>(h: Heap<T>, value0: T, prio0: int, ghost s: Shape, ghost k: nat)
    returns (more: bool, value: T, prio: int, h': Heap<T>)
    requires Holds(h, s) && Live(h.nodes, s)
    requires h.curr.Some? ==> k < |Order(s)| && h.curr == Some(Order(s)[k])
    ensures h' == h.(curr := h'.curr)
    ensures h.curr.None? ==> !more && value == value0 && prio == prio0 && h' == h
    ensures h.curr.Some? ==> k < |Elems(Abs(h.nodes, s))| && Elems(Abs(h.nodes, s))[k] == Entry(prio, value)
    ensures h.curr.Some? ==> (more <==> k + 1 < |Order(s)|)
    ensures h.curr.Some? && more ==> h'.curr == Some(Order(s)[k + 1])
    ensures h.curr.Some? && !more ==> h'.curr == None
  {
    if h.curr.None? {
      return false, value0, prio0, h;
    }
    var t;
    more, value, prio, t := Step(h, s, k);
    h' := h.(curr := if more then Some(t) else None);
  }

  /** The part both versions share: read the entry under the cursor and
      find the index of the next position (the root after the last). */
  method Step<T>(h: Heap<T>, ghost s: Shape, ghost k: nat) returns (more: bool, value: T, prio: int, t: nat)
    requires Holds(h, s) && Live(h.nodes, s)
    requires h.curr.Some? && k < |Order(s)| && h.curr == Some(Order(s)[k])
    ensures k < |Elems(Abs(h.nodes, s))| && Elems(Abs(h.nodes, s))[k] == Entry(prio, value)
    ensures more <==> k + 1 < |Order(s)|
    ensures more ==> t == Order(s)[k + 1]
    ensures !more ==> h.root == Some(t)
  {
    var ns := h.nodes;
    var curr := h.curr.value;
    ElemsAbs(ns, s);
    assert Order(s)[k] in Order(s);
    value, prio := ns[curr].value, ns[curr].prio;
    more, t := Advance(ns, curr, s, k);
  }

  /** The documented use of the cursor: begin(), then next() while the
      previous call returned true, on a non-empty queue. The entries the
      calls write are the listing, in order, and the cursor ends null. */
  method Traverse<T>(h: Heap<T>, ghost s: Shape, value0: T) returns (written: seq<Entry<T>>, h': Heap<T>)
    requires Holds(h, s) && Live(h.nodes, s)
    ensures written == Elems(Abs(h.nodes, s))
    ensures h' == h.(curr := None)
  {
    h' := Begin(h, s);
    CountOrder(h, s);
    ghost var E := Elems(Abs(h.nodes, s));
    ghost var n := |Order(s)|;
    var value, prio := value0, 0;
    var more := h.sz > 0;
    written := [];
    ghost var k := 0;
    while more
      invariant h'.nodes == h.nodes && h'.root == h.root && h'.sz == h.sz
      invariant 0 <= k <= n && |E| == n
      invariant more ==> k < n && h'.curr == Some(Order(s)[k])
      invariant !more ==> k == n && h'.curr == None
      invariant written == E[..k]
      decreases n - k
    {
      HoldsCursor(h, h', s);
      more, value, prio, h' := NextFixed(h', value, prio, s, k);
      Snoc(E, k);
      written := written + [Entry(prio, value)];
      k := k + 1;
    }
    assert E[..k] == E;
    assert h' == h.(curr := None);
  }

  /** The same calls with next() as written: they write the listing just
      the same, but the cursor ends on the root instead of null. */
  method TraverseAsWritten<T>(h: Heap<T>, ghost s: Shape, value0: T) returns (written: seq<Entry<T>>, h': Heap<T>)
    requires Holds(h, s) && Live(h.nodes, s)
    ensures written == Elems(Abs(h.nodes, s))
    ensures h' == h.(curr := h.root)
  {
    h' := Begin(h, s);
    CountOrder(h, s);
    ghost var E := Elems(Abs(h.nodes, s));
    ghost var n := |Order(s)|;
    var value, prio := value0, 0;
    var more := h.sz > 0;
    written := [];
    ghost var k := 0;
    while more
      invariant h'.nodes == h.nodes && h'.root == h.root && h'.sz == h.sz
      invariant 0 <= k <= n && |E| == n
      invariant more ==> k < n && h'.curr == Some(Order(s)[k])
      invariant !more ==> k == n && h'.curr == h.root
      invariant written == E[..k]
      decreases n - k
    {
      HoldsCursor(h, h', s);
      more, value, prio, h' := Next(h', value, prio, s, k);
      Snoc(E, k);
      written := written + [Entry(prio, value)];
      k := k + 1;
    }
    assert E[..k] == E;
    assert h' == h.(curr := h.root);
  }

  /** After that traversal one more next() does not report the end: it
      writes the root's entry again, and returns true unless that entry is
      the last of the listing. */
  method AfterTraverse<T>(h: Heap<T>, ghost s: Shape, value0: T, prio0: int) returns (more: bool, value: T, prio: int)
    requires Holds(h, s) && Live(h.nodes, s) && h.root.Some?
    ensures Abs(h.nodes, s).Node? && prio == Abs(h.nodes, s).prio && value == Abs(h.nodes, s).value
    ensures more <==> |Elems(Abs(h.nodes, s).left)| + 1 < h.sz
  {
    var _, h' := TraverseAsWritten(h, s, value0);
    ghost var k := RootPosition(h, s);
    HoldsCursor(h, h', s);
    more, value, prio, h' := Next(h', value0, prio0, s, k);
  }

  /** The root sits in the listing right after its left subtree. */
  lemma RootPosition<T>(h: Heap<T>, s: Shape) returns (k: nat)
    requires Holds(h, s) && h.root.Some?
    ensures s.Cell? && Abs(h.nodes, s).Node? && k == |Elems(Abs(h.nodes, s).left)|
    ensures k < |Order(s)| == h.sz && Order(s)[k] == s.id && h.root == Some(s.id)
    ensures Elems(Abs(h.nodes, s))[k] == Entry(Abs(h.nodes, s).prio, Abs(h.nodes, s).value)
  {
    CountOrder(h, s);
    var Cell(i, ch, l, r) := s;
    ElemsAbs(h.nodes, l);
    k := |Order(l)|;
    assert Order(s) == Order(l) + [i] + ch + Order(r);
    ElemsAbs(h.nodes, s);
  }

  /** The size counts the indices in listing order, and is zero exactly for
      the empty tree. */
  lemma CountOrder<T>(h: Heap<T>, s: Shape)
    requires Holds(h, s)
    ensures |Elems(Abs(h.nodes, s))| == |Order(s)| == h.sz
    ensures s.Cell? <==> h.sz > 0
  {
    ElemsAbs(h.nodes, s);
    if s.Cell? {
      assert Order(s) == Order(s.left) + [s.id] + s.chain + Order(s.right);
    }
  }

  lemma Snoc<X>(e: seq<X>, k: nat)
    requires k < |e|
    ensures e[..k + 1] == e[..k] + [e[k]]
  {
  }

  /** Moving the cursor changes nothing the tree invariant looks at. */
  lemma HoldsCursor<T>(h: Heap<T>, h': Heap<T>, s: Shape)
    requires Holds(h, s) && Live(h.nodes, s)
    requires h'.nodes == h.nodes && h'.root == h.root && h'.sz == h.sz
    ensures Holds(h', s) && Live(h'.nodes, s)
  {
  }

  /** Once the traversal is over, a further next() returns false and
      writes nothing. */
  method Exhausted<T>(h: Heap<T>, ghost s: Shape, value0: T, prio0: int) returns (more: bool, value: T, prio: int)
    requires Holds(h, s) && Live(h.nodes, s)
    ensures !more && value == value0 && prio == prio0
  {
    var _, h' := Traverse(h, s, value0);
    more, value, prio, h' := NextFixed(h', value0, prio0, s, 0);
  }

  /** The queue built by enqueue(10, 2), enqueue(20, 1), enqueue(30, 3). */
  function Three(): (h: Heap<int>)
    ensures Holds(h, ThreeShape())
  {
    Heap([Rec(2, 10, false, None, None, Some(1), Some(2)),
          Rec(1, 20, false, Some(0), None, None, None),
          Rec(3, 30, false, Some(0), None, None, None)],
         Some(0), 3, Some(0))
  }

  function ThreeShape(): Shape {
    Cell(0, [], Cell(1, [], Nil, Nil), Cell(2, [], Nil, Nil))
  }

  /** On that queue, begin() and three next() calls write (20, 1), (10, 2),
      (30, 3), the third returning false; the fourth call writes (10, 2)
      again and returns true. */
  method FourthCall() returns (more: bool, value: int, prio: int)
    ensures more && value == 10 && prio == 2
  {
    var h := Three();
    ghost var s := ThreeShape();
    assert Order(s) == [1, 0, 2];
    h := Begin(h, s);
    var m1, v1, p1, m2, v2, p2, m3, v3, p3;
    m1, v1, p1, h := Next(h, 0, 0, s, 0);
    m2, v2, p2, h := Next(h, v1, p1, s, 1);
    m3, v3, p3, h := Next(h, v2, p2, s, 2);
    assert !m3 && h.curr == Some(0);
    more, value, prio, h := Next(h, v3, p3, s, 1);
  }

  /** With the corrected next(), the fourth call returns false. */
  method FourthCallFixed() returns (more: bool, value: int, prio: int)
    ensures !more && value == 30 && prio == 3
  {
    var h := Three();
    ghost var s := ThreeShape();
    assert Order(s) == [1, 0, 2];
    h := Begin(h, s);
    var m1, v1, p1, m2, v2, p2, m3, v3, p3;
    m1, v1, p1, h := NextFixed(h, 0, 0, s, 0);
    m2, v2, p2, h := NextFixed(h, v1, p1, s, 1);
    m3, v3, p3, h := NextFixed(h, v2, p2, s, 2);
    more, value, prio, h := NextFixed(h, v3, p3, s, 0);
  }

  /** The pointer work of next() after it has read the current node: the
      index of listing position k + 1, or the root after the last one. */
  method Advance<T>(ns: seq<Rec<T>>, curr: nat, ghost s: Shape, ghost k: nat) returns (more: bool, t: nat)
    requires Fits(ns, s) && Ordered(Abs(ns, s)) && Live(ns, s)
    requires s.Cell? ==> ns[s.id].parent == None
    requires k < |Order(s)| && curr == Order(s)[k]
    ensures more <==> k + 1 < |Order(s)|
    ensures more ==> t == Order(s)[k + 1]
    ensures !more ==> s.Cell? && t == s.id
  {
    ghost var d, c := Position(ns, s, k);
    if ns[curr].link.Some? {
      // the next member of the duplicate chain
      return true, ns[curr].link.value;
    }
    t := ClimbChain(ns, curr, Sub(s, d), c);
    AfterChain(ns, s, d, k);
    if ns[t].right.Some? {
      // the leftmost node of the right subtree
      t := Leftmost(ns, ns[t].right.value, s, d + [true]);
      return true, t;
    }
    more, t := ClimbTree(ns, t, s, d, k);
  }

  /** Where listing position `k` lives: on path `d`, at chain position `c`;
      a `link` there leads to position k + 1, and otherwise `k` is the last
      position of the tree node's chain. */
  lemma Position<T>(ns: seq<Rec<T>>, s: Shape, k: nat) returns (d: seq<bool>, c: nat)
    requires Fits(ns, s) && Ordered(Abs(ns, s)) && Live(ns, s)
    requires s.Cell? ==> ns[s.id].parent == None
    requires k < |Order(s)|
    ensures Sub(s, d).Cell? && Fits(ns, Sub(s, d)) && Live(ns, Sub(s, d)) && c <= |Sub(s, d).chain|
    ensures Order(s)[k] == if c == 0 then Sub(s, d).id else Sub(s, d).chain[c - 1]
    ensures Order(s)[k] < |ns| && Sub(s, d).id < |ns|
    ensures ns[Order(s)[k]].link.Some? ==>
              k + 1 < |Order(s)| && ns[Order(s)[k]].link.value == Order(s)[k + 1]
    ensures ns[Order(s)[k]].link.None? ==>
              k == Start(s, d) + |Order(Sub(s, d).left)| + |Sub(s, d).chain|
    ensures var up := ns[Sub(s, d).id].parent;
            up.Some? ==> up.value < |ns| && ns[up.value].prio != ns[Sub(s, d).id].prio
  {
    d, c := Locate(s, k);
    FitsSub(ns, s, d);
    LiveSub(ns, s, d);
    LinkStep(ns, s, d, c, k);
    HeadParent(ns, s, d);
  }

  /** The `link` of chain position `c` of the tree node on path `d`. */
  lemma LinkStep<T>(ns: seq<Rec<T>>, s: Shape, d: seq<bool>, c: nat, k: nat)
    requires Sub(s, d).Cell? && Fits(ns, Sub(s, d)) && c <= |Sub(s, d).chain|
    requires k < |Order(s)| && k == Start(s, d) + |Order(Sub(s, d).left)| + c
    requires Order(s)[k] == if c == 0 then Sub(s, d).id else Sub(s, d).chain[c - 1]
    ensures Order(s)[k] < |ns|
    ensures ns[Order(s)[k]].link.Some? ==>
              k + 1 < |Order(s)| && ns[Order(s)[k]].link.value == Order(s)[k + 1]
    ensures ns[Order(s)[k]].link.None? ==> c == |Sub(s, d).chain|
  {
    var P := Sub(s, d);
    if c > 0 {
      assert ChainRec(ns, P.id, P.chain, c - 1);
    }
    if c < |P.chain| {
      NodeAt(P, c + 1);
      SubAt(s, d, |Order(P.left)| + c + 1);
    }
  }

  /** A tree node's parent, if any, has a different priority. */
  lemma HeadParent<T>(ns: seq<Rec<T>>, s: Shape, d: seq<bool>)
    requires Fits(ns, s) && Ordered(Abs(ns, s))
    requires s.Cell? ==> ns[s.id].parent == None
    requires Sub(s, d).Cell?
    ensures Sub(s, d).id < |ns|
    ensures var up := ns[Sub(s, d).id].parent;
            up.Some? ==> up.value < |ns| && ns[up.value].prio != ns[Sub(s, d).id].prio
  {
    if |d| == 0 {
      assert Sub(s, d) == s;
    } else {
      ParentStep(ns, s, d);
    }
  }

  /** Past the chain of the tree node on path `d`: a right subtree holds
      position k + 1 at its start; without one, the node's listing ends
      at k. */
  lemma AfterChain<T>(ns: seq<Rec<T>>, s: Shape, d: seq<bool>, k: nat)
    requires Fits(ns, s) && Sub(s, d).Cell? && Fits(ns, Sub(s, d))
    requires k == Start(s, d) + |Order(Sub(s, d).left)| + |Sub(s, d).chain|
    ensures Sub(s, d).id < |ns|
    ensures ns[Sub(s, d).id].right.Some? ==>
              Sub(s, d + [true]).Cell? && ns[Sub(s, d).id].right.value == Sub(s, d + [true]).id
              && Start(s, d + [true]) == k + 1
    ensures ns[Sub(s, d).id].right.None? ==> k + 1 == Start(s, d) + |Order(Sub(s, d))|
  {
    SubSnoc(s, d, true);
  }

  /** The climb from the last member of a duplicate chain back to its tree
      node, through `parent` while the priority stays the same. */
  method ClimbChain<T>(ns: seq<Rec<T>>, curr: nat, ghost P: Shape, ghost c: nat) returns (t: nat)
    requires Fits(ns, P) && Live(ns, P) && P.Cell? && c <= |P.chain|
    requires curr == if c == 0 then P.id else P.chain[c - 1]
    requires ns[P.id].parent.Some? ==> ns[P.id].parent.value < |ns| && ns[ns[P.id].parent.value].prio != ns[P.id].prio
    ensures t == P.id
  {
    t := curr;
    ghost var j: int := c - 1;
    ghost var up: int := -1;
    if j >= 0 {
      up := ChainParent(ns, P, j);
    }
    while ns[t].parent.Some? && ns[t].prio == ns[ns[t].parent.value].prio
      invariant -1 <= j < |P.chain| && t < |ns|
      invariant t == if j < 0 then P.id else P.chain[j]
      invariant j < 0 ==> ns[t].parent.Some? ==> ns[t].parent.value < |ns| && ns[ns[t].parent.value].prio != ns[t].prio
      invariant j >= 0 ==> -1 <= up < j && ns[t].parent == Some(if up < 0 then P.id else P.chain[up])
      invariant j >= 0 ==> ns[t].parent.value < |ns|
      decreases j
    {
      t, j := ns[t].parent.value, up;
      if j >= 0 {
        up := ChainParent(ns, P, j);
      }
    }
  }

  /** A chain member's parent is the tree node (-1) or an earlier member,
      with the same priority. */
  lemma ChainParent<T>(ns: seq<Rec<T>>, P: Shape, j: nat) returns (up: int)
    requires Fits(ns, P) && Live(ns, P) && P.Cell? && j < |P.chain|
    ensures -1 <= up < j && P.chain[j] < |ns| && P.id < |ns|
    ensures ns[P.chain[j]].parent == Some(if up < 0 then P.id else P.chain[up])
    ensures up >= 0 ==> P.chain[up] < |ns| && ns[P.chain[up]].prio == ns[P.id].prio
    ensures ns[P.chain[j]].prio == ns[P.id].prio
  {
    assert ChainRec(ns, P.id, P.chain, j);
    assert LiveParent(ns, P.id, P.chain, j);
    if ns[P.chain[j]].parent == Some(P.id) {
      up := -1;
    } else {
      up :| 0 <= up < j && ns[P.chain[j]].parent == Some(P.chain[up]);
      assert ChainRec(ns, P.id, P.chain, up);
    }
  }

  /** The climb from a tree node without right subtree whose listing ends
      at position k: up through `parent` until arriving from a left
      subtree, whose parent holds position k + 1, or to the root. */
  method ClimbTree<T>(ns: seq<Rec<T>>, curr: nat, ghost s: Shape, ghost d: seq<bool>, ghost k: nat)
    returns (more: bool, t: nat)
    requires Fits(ns, s) && Ordered(Abs(ns, s))
    requires s.Cell? ==> ns[s.id].parent == None
    requires Sub(s, d).Cell? && curr == Sub(s, d).id
    requires k + 1 == Start(s, d) + |Order(Sub(s, d))|
    ensures more <==> k + 1 < |Order(s)|
    ensures more ==> t == Order(s)[k + 1]
    ensures !more ==> s.Cell? && t == s.id
  {
    t := curr;
    ghost var e := d;
    UpStep(ns, s, e);
    while ns[t].parent.Some?
      invariant Sub(s, e).Cell? && t == Sub(s, e).id && t < |ns|
      invariant k + 1 == Start(s, e) + |Order(Sub(s, e))|
      decreases |e|
    {
      UpStep(ns, s, e);
      var par := ns[t].parent.value;
      if ns[par].prio > ns[t].prio {
        return true, par;
      }
      t, e := par, e[..|e| - 1];
    }
    UpStep(ns, s, e);
    more := false;
  }

  /** One step of that climb from the tree node on path `e`: at the root
      there is no parent; a left child's listing is followed by its
      parent, a right child's listing ends where its parent's does. */
  lemma UpStep<T>(ns: seq<Rec<T>>, s: Shape, e: seq<bool>)
    requires Fits(ns, s) && Ordered(Abs(ns, s))
    requires s.Cell? ==> ns[s.id].parent == None
    requires Sub(s, e).Cell?
    ensures Sub(s, e).id < |ns|
    ensures |e| == 0 ==> (Sub(s, e) == s && ns[Sub(s, e).id].parent == None
                          && Start(s, e) + |Order(Sub(s, e))| == |Order(s)|)
    ensures |e| > 0 ==>
              var g := e[..|e| - 1]; var up := ns[Sub(s, e).id].parent;
              && Sub(s, g).Cell? && up == Some(Sub(s, g).id) && up.value < |ns|
              && (ns[up.value].prio > ns[Sub(s, e).id].prio <==> !e[|e| - 1])
              && (e[|e| - 1] ==> Start(s, g) + |Order(Sub(s, g))| == Start(s, e) + |Order(Sub(s, e))|)
              && (!e[|e| - 1] ==> Start(s, e) + |Order(Sub(s, e))| < |Order(s)|
                                  && Order(s)[Start(s, e) + |Order(Sub(s, e))|] == Sub(s, g).id)
  {
    FitsSub(ns, s, e);
    if |e| == 0 {
      assert Sub(s, e) == s;
    } else {
      ParentStep(ns, s, e);
      var g := e[..|e| - 1];
      if !e[|e| - 1] {
        NodeAt(Sub(s, g), 0);
        SubAt(s, g, |Order(Sub(s, g).left)|);
      }
    }
  }
}
