/** enqueue and dequeue on the arena, record by record as the pointer code
    does them, and proved to hold the same queue as the functional model. */
module HeapOps {
  import opened Listing
  import opened Bst
  import opened Arena
  import opened Graft
  import PrQueue
  import Cursor

  /** The queue the arena holds, as the functional model sees it. */
  ghost function View<T>(h: Heap<T>, s: Shape): PrQueue.Queue<T>
    requires Fits(h.nodes, s)
  {
    PrQueue.Queue(Abs(h.nodes, s), h.sz)
  }

  /** A fitting shape uses indices inside the store only. */
  lemma {:induction false} IdsInRange<T>(ns: seq<Rec<T>>, s: Shape)
    requires Fits(ns, s)
    ensures forall x :: x in Ids(s) ==> x < |ns|
  {
    match s
    case Nil =>
    case Cell(i, ch, l, r) =>
      IdsInRange(ns, l);
      IdsInRange(ns, r);
  }

  // ---------------------------------------------------------------------
  // enqueue
  // ---------------------------------------------------------------------

  /** enqueue(value, priority) as written: a node for a new priority is
      hung below the last node of the descent; an entry of a priority
      already present goes to the end of that node's chain, with `parent`
      set to the member before the last one. An empty queue gets the new
      node as root, and the cursor is put on it. */
  method Enqueue<T>(h: Heap<T>, v: T, p: int, ghost s: Shape) returns (h': Heap<T>, ghost s': Shape)
    requires Holds(h, s)
    ensures Holds(h', s')
    ensures View(h', s') == PrQueue.Enqueue(View(h, s), v, p)
    ensures Live(h.nodes, s) ==> Live(h'.nodes, s')
    ensures h'.curr == if h.root.None? then h'.root else h.curr
  {
    if h.root.None? {
      h', s' := Plant(h, v, p, s);
      TightLive(h'.nodes, s');
      return;
    }
    var found, par, g := Descend(h, v, p, s);
    if found {
      FitsSub(h.nodes, s, g);
      var before, last := ChainEnd(h.nodes, par, Sub(s, g));
      h', s' := Append(h, v, p, s, g, par, last, before);
    } else {
      h', s' := Attach(h, v, p, s, g, par);
    }
  }

  /** enqueue with the new chain member's `parent` set to the member it is
      linked from, so that every chain keeps tight parent links. */
  method EnqueueFixed<T>(h: Heap<T>, v: T, p: int, ghost s: Shape) returns (h': Heap<T>, ghost s': Shape)
    requires Holds(h, s)
    ensures Holds(h', s')
    ensures View(h', s') == PrQueue.Enqueue(View(h, s), v, p)
    ensures Tight(h.nodes, s) ==> Tight(h'.nodes, s')
    ensures h'.curr == if h.root.None? then h'.root else h.curr
  {
    if h.root.None? {
      h', s' := Plant(h, v, p, s);
      return;
    }
    var found, par, g := Descend(h, v, p, s);
    if found {
      FitsSub(h.nodes, s, g);
      var before, last := ChainEnd(h.nodes, par, Sub(s, g));
      h', s' := Append(h, v, p, s, g, par, last, last);
    } else {
      h', s' := Attach(h, v, p, s, g, par);
    }
  }

  /** The first node of an empty queue becomes the root and the cursor. */
  method Plant<T>(h: Heap<T>, v: T, p: int, ghost s: Shape) returns (h': Heap<T>, ghost s': Shape)
    requires Holds(h, s) && h.root.None?
    ensures Holds(h', s') && Tight(h'.nodes, s')
    ensures View(h', s') == PrQueue.Enqueue(View(h, s), v, p)
    ensures h'.curr == h'.root
  {
    var n := |h.nodes|;
    var ns := h.nodes + [Rec(p, v, false, None, None, None, None)];
    h' := Heap(ns, Some(n), 1, Some(n));
    s' := Cell(n, [], Nil, Nil);
    assert ns[n] == Rec(p, v, false, None, None, None, None);
    LeafFits(ns, n);
  }

  /** The descent from the root: left for a smaller priority, right
      otherwise, stopping at the node that owns `p` (found) or at the node
      whose child on that side is missing. Inserting into the whole tree
      is inserting into the subtree there. */
  method Descend<T>(h: Heap<T>, v: T, p: int, ghost s: Shape) returns (found: bool, par: nat, ghost g: seq<bool>)
    requires Holds(h, s) && h.root.Some?
    ensures Sub(s, g).Cell? && par == Sub(s, g).id && par < |h.nodes|
    ensures found <==> h.nodes[par].prio == p
    ensures !found ==> Child(Sub(s, g), !(p < h.nodes[par].prio)).Nil?
    ensures Insert(Abs(h.nodes, s), v, p)
              == TGraft(Abs(h.nodes, s), g, Insert(TSub(Abs(h.nodes, s), g), v, p))
  {
    var ns := h.nodes;
    ghost var T := Abs(ns, s);
    par := h.root.value;
    g := [];
    while true
      invariant Sub(s, g).Cell? && par == Sub(s, g).id
      invariant Insert(T, v, p) == TGraft(T, g, Insert(TSub(T, g), v, p))
      decreases Sub(s, g)
    {
      FitsSub(ns, s, g);
      if p == ns[par].prio {
        return true, par, g;
      }
      var b := !(p < ns[par].prio);
      var next := if b then ns[par].right else ns[par].left;
      if next.None? {
        return false, par, g;
      }
      AbsSub(ns, s, g);
      DescendStep(T, g, b, v, p);
      SubSnoc(s, g, b);
      par, g := next.value, g + [b];
    }
  }

  /** One step of the descent keeps "insert here is insert there". */
  lemma DescendStep<T>(t: Tree<T>, e: seq<bool>, b: bool, v: T, p: int)
    requires TSub(t, e).Node? && p != TSub(t, e).prio && b == !(p < TSub(t, e).prio)
    requires Insert(t, v, p) == TGraft(t, e, Insert(TSub(t, e), v, p))
    ensures Insert(t, v, p) == TGraft(t, e + [b], Insert(TSub(t, e + [b]), v, p))
  {
    var x := Insert(TSub(t, e + [b]), v, p);
    TGraftSnoc(t, e, b, x);
  }

  /** The walk along `link` to the end of the chain of tree node `par`:
      `last` is the chain's last member (the node itself when the chain
      is empty), `before` the one visited just before it. */
  method ChainEnd<T>(ns: seq<Rec<T>>, par: nat, ghost G: Shape) returns (before: nat, last: nat)
    requires Fits(ns, G) && G.Cell? && par == G.id
    ensures (before, last) == ChainTail(par, G.chain)
  {
    ghost var ch := [par] + G.chain;
    before, last := par, par;
    ghost var j := 0;
    while ns[last].link.Some?
      invariant 0 <= j <= |G.chain| && last == ch[j] && before == ch[if j == 0 then 0 else j - 1]
      invariant last < |ns| && ns[last].link == LinkAt(G.chain, j)
      decreases |G.chain| - j
    {
      before, last := last, ns[last].link.value;
      j := j + 1;
      assert ChainRec(ns, par, G.chain, j - 1);
    }
  }

  /** The last two of a tree node `par` and its chain `ch`; both are `par`
      when the chain is empty. */
  function ChainTail(par: nat, ch: seq<nat>): (r: (nat, nat))
    ensures r.1 in [par] + ch && r.0 in [par] + ch
  {
    var c := [par] + ch;
    (c[if |ch| == 0 then 0 else |ch| - 1], c[|ch|])
  }

  /** A new priority: a childless node hung on the missing side of the
      descent's last node `par`, pointing back to it. */
  method Attach<T>(h: Heap<T>, v: T, p: int, ghost s: Shape, ghost g: seq<bool>, par: nat)
    returns (h': Heap<T>, ghost s': Shape)
    requires Holds(h, s) && Sub(s, g).Cell? && par == Sub(s, g).id && par < |h.nodes|
    requires h.nodes[par].prio != p && Child(Sub(s, g), !(p < h.nodes[par].prio)).Nil?
    requires Insert(Abs(h.nodes, s), v, p) == TGraft(Abs(h.nodes, s), g, Insert(TSub(Abs(h.nodes, s), g), v, p))
    ensures Holds(h', s') && View(h', s') == PrQueue.Enqueue(View(h, s), v, p)
    ensures Live(h.nodes, s) ==> Live(h'.nodes, s')
    ensures Tight(h.nodes, s) ==> Tight(h'.nodes, s')
    ensures h'.curr == h.curr
  {
    var ns := h.nodes;
    var n := |ns|;
    var b := !(p < ns[par].prio);
    var pr := if b then ns[par].(right := Some(n)) else ns[par].(left := Some(n));
    var ns' := ns[par := pr] + [Rec(p, v, false, Some(par), None, None, None)];
    PatchedAppend(ns, par, pr, Rec(p, v, false, Some(par), None, None, None));
    h' := h.(nodes := ns', sz := h.sz + 1);
    s' := SGraft(s, g, Hang(Sub(s, g), b, n));
    DistinctSub(s, g);
    FitsSub(ns, s, g);
    HangLeaf(ns, ns', s, g, b, v, p);
    IdsInRange(ns, s);
    HangIds(s, g, b, n);
    Enqueued(h, s, h', s', v, p);
  }

  /** An arena step that changed the tree into `Insert` of the entry,
      kept the root, and counted one more entry, is the model's enqueue. */
  lemma Enqueued<T>(h: Heap<T>, s: Shape, h': Heap<T>, s': Shape, v: T, p: int)
    requires Holds(h, s) && s.Cell? && h'.root == h.root && h'.sz == h.sz + 1
    requires Fits(h'.nodes, s') && Distinct(s') && Id(s') == Id(s)
    requires s.id < |h.nodes| <= |h'.nodes| && h'.nodes[s.id].parent == h.nodes[s.id].parent
    requires Abs(h'.nodes, s') == Insert(Abs(h.nodes, s), v, p)
    ensures Holds(h', s') && View(h', s') == PrQueue.Enqueue(View(h, s), v, p)
  {
    var q := View(h, s);
    assert q.root.Node? && PrQueue.Valid(q);
    var r := PrQueue.Enqueue(q, v, p);
    assert r == PrQueue.Queue(Insert(q.root, v, p), h.sz + 1) && PrQueue.Valid(r);
    assert s'.Cell? && s'.id == s.id;
  }

  /** What hanging a new leaf does to the records: tree node `G.id` gets
      the new index on side `b`, and the leaf is appended to the store. */
  ghost predicate Hung<T>(ns: seq<Rec<T>>, ns': seq<Rec<T>>, G: Shape, b: bool, v: T, p: int) {
    && G.Cell? && Fits(ns, G) && Distinct(G) && Child(G, b).Nil?
    && G.id < |ns| && ns[G.id].prio != p && b == !(p < ns[G.id].prio)
    && Patched(ns, ns', G.id, if b then ns[G.id].(right := Some(|ns|)) else ns[G.id].(left := Some(|ns|)),
               Rec(p, v, false, Some(G.id), None, None, None))
  }

  function Hang(G: Shape, b: bool, n: nat): Shape
    requires G.Cell?
  {
    if b then G.(right := Cell(n, [], Nil, Nil)) else G.(left := Cell(n, [], Nil, Nil))
  }

  /** The node with the leaf hung on it holds the tree with the entry
      inserted, and its own `parent` is unchanged. */
  lemma HangFits<T>(ns: seq<Rec<T>>, ns': seq<Rec<T>>, G: Shape, b: bool, v: T, p: int)
    requires Hung(ns, ns', G, b, v, p)
    ensures Fits(ns', Hang(G, b, |ns|)) && ns'[G.id].parent == ns[G.id].parent
    ensures Abs(ns', Hang(G, b, |ns|)) == Insert(Abs(ns, G), v, p)
    ensures Live(ns, G) ==> Live(ns', Hang(G, b, |ns|))
    ensures Tight(ns, G) ==> Tight(ns', Hang(G, b, |ns|))
  {
    var par, n := G.id, |ns|;
    var leaf := Cell(n, [], Nil, Nil);
    IdsInRange(ns, G);
    NoDupHead(par, G.chain);
    assert Ids(G) == Ids(G.left) + ({par} + Members(G.chain)) + Ids(G.right);
    assert forall x :: x in G.chain ==> x in Members(G.chain);
    assert ns'[n] == Rec(p, v, false, Some(par), None, None, None);
    LeafFits(ns', n);
    ReplaceChild(ns, ns', G, b, leaf);
    if Live(ns, G) {
      ReplaceChildLive(ns, ns', G, b, leaf);
    }
    if Tight(ns, G) {
      ReplaceChildTight(ns, ns', G, b, leaf);
    }
  }

  /** A store changed at index `i` of the subtree at the end of `g` only
      (and perhaps extended) keeps every record outside that subtree. */
  lemma OutsideFrame<T>(ns: seq<Rec<T>>, ns': seq<Rec<T>>, s: Shape, g: seq<bool>, i: nat)
    requires Fits(ns, s) && i in Ids(Sub(s, g)) && |ns| <= |ns'|
    requires forall x :: 0 <= x < |ns| && x != i ==> ns'[x] == ns[x]
    ensures forall x :: x in Ids(s) && x !in Ids(Sub(s, g)) ==> x < |ns| && x < |ns'| && ns'[x] == ns[x]
  {
    IdsInRange(ns, s);
  }

  /** Hanging the leaf below the node at the end of `g`, in the whole arena. */
  lemma HangLeaf<T>(ns: seq<Rec<T>>, ns': seq<Rec<T>>, s: Shape, g: seq<bool>, b: bool, v: T, p: int)
    requires Fits(ns, s) && Distinct(s) && Sub(s, g).Cell?
    requires Hung(ns, ns', Sub(s, g), b, v, p)
    ensures Fits(ns', SGraft(s, g, Hang(Sub(s, g), b, |ns|)))
    ensures Abs(ns', SGraft(s, g, Hang(Sub(s, g), b, |ns|)))
              == TGraft(Abs(ns, s), g, Insert(TSub(Abs(ns, s), g), v, p))
    ensures Live(ns, s) ==> Live(ns', SGraft(s, g, Hang(Sub(s, g), b, |ns|)))
    ensures Tight(ns, s) ==> Tight(ns', SGraft(s, g, Hang(Sub(s, g), b, |ns|)))
  {
    var G := Sub(s, g);
    var u := Hang(G, b, |ns|);
    assert G.id in Ids(G);
    OutsideFrame(ns, ns', s, g, G.id);
    HangFits(ns, ns', G, b, v, p);
    AbsSub(ns, s, g);
    GraftFits(ns, ns', s, g, u);
    if Live(ns, s) {
      LiveSub(ns, s, g);
      GraftLive(ns, ns', s, g, u);
    }
    if Tight(ns, s) {
      TightSub(ns, s, g);
      GraftTight(ns, ns', s, g, u);
    }
  }

  /** The hung leaf's index is new, and the root stays where it was. */
  lemma HangIds(s: Shape, g: seq<bool>, b: bool, n: nat)
    requires Distinct(s) && Sub(s, g).Cell? && Child(Sub(s, g), b).Nil? && n !in Ids(s)
    ensures Distinct(SGraft(s, g, Hang(Sub(s, g), b, n)))
    ensures Id(SGraft(s, g, Hang(Sub(s, g), b, n))) == Id(s)
  {
    var G := Sub(s, g);
    var u := Hang(G, b, n);
    SubIds(s, g);
    DistinctSub(s, g);
    assert Ids(u) == Ids(G) + {n};
    GraftIds(s, g, u, {n});
    GraftRoot(s, g, u);
  }

  /** A record with no link and no children is a leaf of its own. */
  lemma LeafFits<T>(ns: seq<Rec<T>>, n: nat)
    requires n < |ns| && ns[n].link.None? && ns[n].left.None? && ns[n].right.None?
    ensures Fits(ns, Cell(n, [], Nil, Nil))
    ensures Abs(ns, Cell(n, [], Nil, Nil)) == Node(ns[n].prio, ns[n].value, [], Leaf, Leaf)
  {
    assert ChainValues(ns, []) == [];
  }

  /** A priority already present: a childless duplicate linked after the
      chain's last member `last` (the tree node `par` for an empty chain),
      both marked as duplicates, with `parent` set to `up`. */
  method Append<T>(h: Heap<T>, v: T, p: int, ghost s: Shape, ghost g: seq<bool>, par: nat, last: nat, up: nat)
    returns (h': Heap<T>, ghost s': Shape)
    requires Holds(h, s) && Sub(s, g).Cell? && par == Sub(s, g).id && par < |h.nodes|
    requires h.nodes[par].prio == p
    requires last == ([par] + Sub(s, g).chain)[|Sub(s, g).chain|] && up in [par] + Sub(s, g).chain
    requires Insert(Abs(h.nodes, s), v, p) == TGraft(Abs(h.nodes, s), g, Insert(TSub(Abs(h.nodes, s), g), v, p))
    ensures Holds(h', s') && View(h', s') == PrQueue.Enqueue(View(h, s), v, p)
    ensures Live(h.nodes, s) ==> Live(h'.nodes, s')
    ensures Tight(h.nodes, s) && up == last ==> Tight(h'.nodes, s')
    ensures h'.curr == h.curr
  {
    var ns := h.nodes;
    var n := |ns|;
    IdsInRange(ns, s);
    SubIds(s, g);
    LastIn(Sub(s, g), last);
    var ns' := LinkRecords(ns, last, up, v, p);
    h' := h.(nodes := ns', sz := h.sz + 1);
    s' := SGraft(s, g, Grow(Sub(s, g), n));
    DistinctSub(s, g);
    FitsSub(ns, s, g);
    AppendLeaf(ns, ns', s, g, last, v, up);
    GrowIds(s, g, n);
    Enqueued(h, s, h', s', v, p);
  }

  /** The record updates of a duplicate enqueue: the chain's last member
      `last` links to a new record at the end of the store, which carries
      the entry and names `up` as its parent. */
  function LinkRecords<T>(ns: seq<Rec<T>>, last: nat, up: nat, v: T, p: int): (ns': seq<Rec<T>>)
    requires last < |ns|
    ensures Patched(ns, ns', last, ns[last].(link := Some(|ns|), dup := true), Rec(p, v, true, Some(up), None, None, None))
  {
    ns[last := ns[last].(link := Some(|ns|), dup := true)] + [Rec(p, v, true, Some(up), None, None, None)]
  }

  function Grow(G: Shape, n: nat): Shape
    requires G.Cell?
  {
    G.(chain := G.chain + [n])
  }

  /** Appending to the chain at the end of `g`, in the whole arena. */
  lemma AppendLeaf<T>(ns: seq<Rec<T>>, ns': seq<Rec<T>>, s: Shape, g: seq<bool>, last: nat, v: T, up: nat)
    requires Fits(ns, s) && Distinct(s) && Sub(s, g).Cell?
    requires Appended(ns, ns', Sub(s, g), last, v, up)
    ensures Fits(ns', SGraft(s, g, Grow(Sub(s, g), |ns|)))
    ensures Abs(ns', SGraft(s, g, Grow(Sub(s, g), |ns|)))
              == TGraft(Abs(ns, s), g, Insert(TSub(Abs(ns, s), g), v, ns[Sub(s, g).id].prio))
    ensures Live(ns, s) && up in [Sub(s, g).id] + Sub(s, g).chain ==> Live(ns', SGraft(s, g, Grow(Sub(s, g), |ns|)))
    ensures Tight(ns, s) && up == last ==> Tight(ns', SGraft(s, g, Grow(Sub(s, g), |ns|)))
  {
    var G := Sub(s, g);
    var u := Grow(G, |ns|);
    LastIn(G, last);
    OutsideFrame(ns, ns', s, g, last);
    AppendFits(ns, ns', G, last, v, up);
    AbsSub(ns, s, g);
    GraftFits(ns, ns', s, g, u);
    if Live(ns, s) && up in [G.id] + G.chain {
      LiveSub(ns, s, g);
      AppendLive(ns, ns', G, last, v, up);
      GraftLive(ns, ns', s, g, u);
    }
    if Tight(ns, s) && up == last {
      TightSub(ns, s, g);
      AppendTight(ns, ns', G, last, v);
      GraftTight(ns, ns', s, g, u);
    }
  }

  /** The new chain member's index is new, and the root stays where it was. */
  lemma GrowIds(s: Shape, g: seq<bool>, n: nat)
    requires Distinct(s) && Sub(s, g).Cell? && n !in Ids(s)
    ensures Distinct(SGraft(s, g, Grow(Sub(s, g), n)))
    ensures Id(SGraft(s, g, Grow(Sub(s, g), n))) == Id(s)
  {
    var G := Sub(s, g);
    var u := Grow(G, n);
    SubIds(s, g);
    DistinctSub(s, g);
    assert Members(G.chain + [n]) == Members(G.chain) + {n};
    assert Ids(u) == Ids(G) + {n};
    NoDupSnoc([G.id] + G.chain, n);
    assert [G.id] + (G.chain + [n]) == ([G.id] + G.chain) + [n];
    GraftIds(s, g, u, {n});
    GraftRoot(s, g, u);
  }

  lemma NoDupSnoc(o: seq<nat>, n: nat)
    requires NoDup(o) && n !in o
    ensures NoDup(o + [n])
  {
  }

  /** The chain's last member is one of the node's own indices. */
  lemma LastIn(G: Shape, last: nat)
    requires G.Cell? && last == ([G.id] + G.chain)[|G.chain|]
    ensures last in Ids(G) && last in [G.id] + G.chain
    ensures |G.chain| == 0 ==> last == G.id
    ensures |G.chain| > 0 ==> last == G.chain[|G.chain| - 1]
  {
    assert Ids(G) == Ids(G.left) + ({G.id} + Members(G.chain)) + Ids(G.right);
    if |G.chain| > 0 {
      assert last in G.chain;
    }
  }

  /** What appending does to the records: the old last member links to
      the new one at the end of the store. */
  ghost predicate Appended<T>(ns: seq<Rec<T>>, ns': seq<Rec<T>>, G: Shape, last: nat, v: T, up: nat) {
    && G.Cell? && Fits(ns, G) && Distinct(G)
    && last == ([G.id] + G.chain)[|G.chain|] && last < |ns|
    && Patched(ns, ns', last, ns[last].(link := Some(|ns|), dup := true),
               Rec(ns[G.id].prio, v, true, Some(up), None, None, None))
  }

  lemma AppendFits<T>(ns: seq<Rec<T>>, ns': seq<Rec<T>>, G: Shape, last: nat, v: T, up: nat)
    requires Appended(ns, ns', G, last, v, up)
    ensures Fits(ns', Grow(G, |ns|))
    ensures ns'[G.id].parent == ns[G.id].parent
    ensures Abs(ns', Grow(G, |ns|)) == Insert(Abs(ns, G), v, ns[G.id].prio)
  {
    AppendShape(ns, ns', G, last, v, up);
    var Cell(i, ch, l, r) := G;
    var n := |ns|;
    assert Grow(G, n) == Cell(i, ch + [n], l, r);
    assert Insert(Abs(ns, G), v, ns[i].prio)
             == Node(ns[i].prio, ns[i].value, ChainValues(ns, ch) + [v], Abs(ns, l), Abs(ns, r));
  }

  lemma AppendShape<T>(ns: seq<Rec<T>>, ns': seq<Rec<T>>, G: Shape, last: nat, v: T, up: nat)
    requires Appended(ns, ns', G, last, v, up)
    ensures Fits(ns', Grow(G, |ns|))
    ensures ns'[G.id].parent == ns[G.id].parent && ns'[G.id].value == ns[G.id].value && ns'[G.id].prio == ns[G.id].prio
    ensures Fits(ns, G.left) && Fits(ns', G.left) && Abs(ns', G.left) == Abs(ns, G.left)
    ensures Fits(ns, G.right) && Fits(ns', G.right) && Abs(ns', G.right) == Abs(ns, G.right)
    ensures forall x :: x in G.chain ==> x < |ns|
    ensures ChainValues(ns', G.chain + [|ns|]) == ChainValues(ns, G.chain) + [v]
  {
    AppendKids(ns, ns', G, last, v, up);
    AppendChain(ns, ns', G, last, v, up);
    FitsCell(ns', G.id, G.chain + [|ns|], G.left, G.right);
  }

  /** Both subtrees keep their records. */
  lemma AppendKids<T>(ns: seq<Rec<T>>, ns': seq<Rec<T>>, G: Shape, last: nat, v: T, up: nat)
    requires Appended(ns, ns', G, last, v, up)
    ensures Fits(ns, G.left) && Fits(ns', G.left) && Abs(ns', G.left) == Abs(ns, G.left)
    ensures Fits(ns, G.right) && Fits(ns', G.right) && Abs(ns', G.right) == Abs(ns, G.right)
    ensures G.left.Cell? ==> ns'[G.left.id].parent == Some(G.id)
    ensures G.right.Cell? ==> ns'[G.right.id].parent == Some(G.id)
  {
    var Cell(i, ch, l, r) := G;
    LastIn(G, last);
    IdsInRange(ns, G);
    assert Ids(G) == Ids(l) + ({i} + Members(ch)) + Ids(r);
    assert last !in Ids(l) && last !in Ids(r);
    Frame(ns, ns', l);
    Frame(ns, ns', r);
    assert l.Cell? ==> l.id in Ids(l);
    assert r.Cell? ==> r.id in Ids(r);
  }

  /** The tree node's record and the grown chain are as `Fits` needs. */
  lemma AppendChain<T>(ns: seq<Rec<T>>, ns': seq<Rec<T>>, G: Shape, last: nat, v: T, up: nat)
    requires Appended(ns, ns', G, last, v, up)
    ensures forall x :: x in G.chain ==> x < |ns|
    ensures G.id < |ns'| && ns'[G.id].left == Id(G.left) && ns'[G.id].right == Id(G.right)
    ensures ns'[G.id].parent == ns[G.id].parent && ns'[G.id].value == ns[G.id].value && ns'[G.id].prio == ns[G.id].prio
    ensures ns'[G.id].link == LinkAt(G.chain + [|ns|], 0) && ns'[G.id].dup
    ensures forall x :: x in G.chain + [|ns|] ==> x < |ns'| && ns'[x].prio == ns'[G.id].prio
    ensures forall j :: 0 <= j < |G.chain| + 1 ==> ChainRec(ns', G.id, G.chain + [|ns|], j)
    ensures ChainValues(ns', G.chain + [|ns|]) == ChainValues(ns, G.chain) + [v]
  {
    var Cell(i, ch, l, r) := G;
    LastIn(G, last);
    IdsInRange(ns, G);
    NoDupHead(i, ch);
    assert forall x :: x in ch ==> x in Ids(G);
    ChainGrow(ns, ns', i, ch, last, v, up);
    GrowHead(ns, ns', i, ch, last);
    GrowPrio(ns, ns', i, ch);
  }

  /** The tree node's own record after an append: only its `link` and
      duplicate flag can change, and only when its chain was empty. */
  lemma GrowHead<T>(ns: seq<Rec<T>>, ns': seq<Rec<T>>, i: nat, ch: seq<nat>, last: nat)
    requires i < |ns| && last == ([i] + ch)[|ch|] && last < |ns| && i !in ch
    requires ns[i].link == LinkAt(ch, 0) && (|ch| > 0 ==> ns[i].dup)
    requires |ns'| == |ns| + 1 && ns'[last] == ns[last].(link := Some(|ns|), dup := true)
    requires forall x :: 0 <= x < |ns| && x != last ==> ns'[x] == ns[x]
    ensures ns'[i].left == ns[i].left && ns'[i].right == ns[i].right && ns'[i].parent == ns[i].parent
    ensures ns'[i].prio == ns[i].prio && ns'[i].value == ns[i].value
    ensures ns'[i].link == LinkAt(ch + [|ns|], 0) && ns'[i].dup
  {
    if |ch| > 0 {
      assert ([i] + ch)[0] != ([i] + ch)[|ch|];
    }
  }

  lemma GrowPrio<T>(ns: seq<Rec<T>>, ns': seq<Rec<T>>, i: nat, ch: seq<nat>)
    requires i < |ns| < |ns'| && ns'[i].prio == ns[i].prio && ns'[|ns|].prio == ns[i].prio
    requires forall x :: x in ch ==> x < |ns| && ns[x].prio == ns[i].prio && ns'[x].prio == ns[x].prio
    ensures forall x :: x in ch + [|ns|] ==> x < |ns'| && ns'[x].prio == ns'[i].prio
  {
  }

  /** The conditions of `Fits` at one tree node, assembled. */
  lemma FitsCell<T>(ns: seq<Rec<T>>, i: nat, ch: seq<nat>, l: Shape, r: Shape)
    requires Fits(ns, l) && Fits(ns, r) && i < |ns|
    requires ns[i].left == Id(l) && ns[i].right == Id(r)
    requires (l.Cell? ==> ns[l.id].parent == Some(i)) && (r.Cell? ==> ns[r.id].parent == Some(i))
    requires ns[i].link == LinkAt(ch, 0) && (|ch| > 0 ==> ns[i].dup)
    requires forall x :: x in ch ==> x < |ns| && ns[x].prio == ns[i].prio
    requires forall j :: 0 <= j < |ch| ==> ChainRec(ns, i, ch, j)
    ensures Fits(ns, Cell(i, ch, l, r))
  {
  }

  /** The store after an append, pointwise: one record patched at `k`,
      one record added at the end, the rest as they were. */
  ghost predicate Patched<T>(ns: seq<Rec<T>>, ns': seq<Rec<T>>, k: nat, r: Rec<T>, tail: Rec<T>) {
    && k < |ns| && |ns'| == |ns| + 1 && ns'[k] == r && ns'[|ns|] == tail
    && forall x :: 0 <= x < |ns| && x != k ==> ns'[x] == ns[x]
  }

  lemma PatchedAppend<T>(ns: seq<Rec<T>>, k: nat, r: Rec<T>, tail: Rec<T>)
    requires k < |ns|
    ensures Patched(ns, ns[k := r] + [tail], k, r, tail)
  {
  }

  /** The chain with the new member: every member's record is as a chain
      needs, and its values gain `v` at the end. */
  lemma ChainGrow<T>(ns: seq<Rec<T>>, ns': seq<Rec<T>>, i: nat, ch: seq<nat>, last: nat, v: T, up: nat)
    requires i < |ns| && last == ([i] + ch)[|ch|] && last < |ns| && NoDup([i] + ch)
    requires forall x :: x in ch ==> x < |ns|
    requires forall j :: 0 <= j < |ch| ==> ChainRec(ns, i, ch, j)
    requires Patched(ns, ns', last, ns[last].(link := Some(|ns|), dup := true),
                     Rec(ns[i].prio, v, true, Some(up), None, None, None))
    ensures forall j :: 0 <= j < |ch| + 1 ==> ChainRec(ns', i, ch + [|ns|], j)
    ensures ChainValues(ns', ch + [|ns|]) == ChainValues(ns, ch) + [v]
  {
    var n := |ns|;
    var ch' := ch + [n];
    assert ns'[i].prio == ns[i].prio;
    forall j | 0 <= j < |ch'|
      ensures ChainRec(ns', i, ch', j)
    {
      if j < |ch| {
        assert ChainRec(ns, i, ch, j);
        if j + 1 < |ch| {
          assert ([i] + ch)[j + 1] != ([i] + ch)[|ch|];
        }
      }
    }
    ChainGrowValues(ns, ns', ch, v);
  }

  lemma ChainGrowValues<T>(ns: seq<Rec<T>>, ns': seq<Rec<T>>, ch: seq<nat>, v: T)
    requires |ns'| == |ns| + 1 && ns'[|ns|].value == v
    requires forall x :: x in ch ==> x < |ns| && ns'[x].value == ns[x].value
    ensures ChainValues(ns', ch + [|ns|]) == ChainValues(ns, ch) + [v]
  {
    var cv := ChainValues(ns', ch + [|ns|]);
    assert forall j :: 0 <= j < |ch| ==> ch[j] in ch;
    assert cv == ChainValues(ns, ch) + [v];
  }

  lemma AppendLive<T>(ns: seq<Rec<T>>, ns': seq<Rec<T>>, G: Shape, last: nat, v: T, up: nat)
    requires Appended(ns, ns', G, last, v, up) && Live(ns, G) && up in [G.id] + G.chain
    ensures Live(ns', Grow(G, |ns|))
  {
    var Cell(i, ch, l, r) := G;
    assert Grow(G, |ns|) == Cell(i, ch + [|ns|], l, r);
    LastIn(G, last);
    IdsInRange(ns, G);
    assert Ids(G) == Ids(l) + ({i} + Members(ch)) + Ids(r);
    assert last !in Ids(l) && last !in Ids(r);
    FrameLive(ns, ns', l);
    FrameLive(ns, ns', r);
    assert forall x :: x in ch ==> x in Members(ch);
    ChainGrowLive(ns, ns', i, ch, up);
  }

  /** Parents along the chain stay live when the new member's `parent` is
      the tree node or a member before it. */
  lemma ChainGrowLive<T>(ns: seq<Rec<T>>, ns': seq<Rec<T>>, i: nat, ch: seq<nat>, up: nat)
    requires |ns'| == |ns| + 1 && ns'[|ns|].parent == Some(up) && up in [i] + ch
    requires forall x :: 0 <= x < |ns| ==> ns'[x].parent == ns[x].parent
    requires forall x :: x in ch ==> x < |ns|
    requires forall j :: 0 <= j < |ch| && ch[j] < |ns| ==> LiveParent(ns, i, ch, j)
    ensures forall j :: 0 <= j < |ch| + 1 && (ch + [|ns|])[j] < |ns'| ==> LiveParent(ns', i, ch + [|ns|], j)
  {
    var ch' := ch + [|ns|];
    forall j | 0 <= j < |ch'| && ch'[j] < |ns'|
      ensures LiveParent(ns', i, ch', j)
    {
      if j < |ch| {
        assert ch[j] in ch;
        assert LiveParent(ns, i, ch, j);
        if ns[ch[j]].parent != Some(i) {
          var j' :| 0 <= j' < j && ns[ch[j]].parent == Some(ch[j']);
          assert ns'[ch'[j]].parent == Some(ch'[j']);
        }
      } else if up != i {
        var k :| 0 <= k < |[i] + ch| && ([i] + ch)[k] == up;
        assert ns'[ch'[j]].parent == Some(ch'[k - 1]);
      }
    }
  }

  lemma AppendTight<T>(ns: seq<Rec<T>>, ns': seq<Rec<T>>, G: Shape, last: nat, v: T)
    requires Appended(ns, ns', G, last, v, last) && Tight(ns, G)
    ensures Tight(ns', Grow(G, |ns|))
  {
    var Cell(i, ch, l, r) := G;
    assert Grow(G, |ns|) == Cell(i, ch + [|ns|], l, r);
    LastIn(G, last);
    IdsInRange(ns, G);
    assert Ids(G) == Ids(l) + ({i} + Members(ch)) + Ids(r);
    assert last !in Ids(l) && last !in Ids(r);
    FrameTight(ns, ns', l);
    FrameTight(ns, ns', r);
    assert forall x :: x in ch ==> x in Members(ch);
    ChainGrowTight(ns, ns', i, ch, last);
  }

  /** Parents along the chain stay tight when the new member's `parent` is
      the member it is linked from. */
  lemma ChainGrowTight<T>(ns: seq<Rec<T>>, ns': seq<Rec<T>>, i: nat, ch: seq<nat>, last: nat)
    requires |ns'| == |ns| + 1 && ns'[|ns|].parent == Some(last) && last == ([i] + ch)[|ch|]
    requires forall x :: 0 <= x < |ns| ==> ns'[x].parent == ns[x].parent
    requires forall x :: x in ch ==> x < |ns|
    requires |ch| > 0 && ch[0] < |ns| ==> ns[ch[0]].parent == Some(i)
    requires forall j :: 0 < j < |ch| && ch[j] < |ns| ==> ns[ch[j]].parent == Some(ch[j - 1])
    ensures var ch' := ch + [|ns|];
      && (|ch'| > 0 && ch'[0] < |ns'| ==> ns'[ch'[0]].parent == Some(i))
      && (forall j :: 0 < j < |ch'| && ch'[j] < |ns'| ==> ns'[ch'[j]].parent == Some(ch'[j - 1]))
  {
    var ch' := ch + [|ns|];
    forall j | 0 < j < |ch'| && ch'[j] < |ns'|
      ensures ns'[ch'[j]].parent == Some(ch'[j - 1])
    {
      if j < |ch| {
        assert ch[j] in ch;
      }
    }
    if |ch| > 0 {
      assert ch[0] in ch;
    }
  }

  // ---------------------------------------------------------------------
  // dequeue
  // ---------------------------------------------------------------------

  /** dequeue(): the default value on an empty queue; otherwise the
      leftmost tree node's value, the node replaced by the first member of
      its chain (which takes over its right subtree and its place) or, with
      no chain, by its right subtree. The released record stays in the
      store, unreachable. */
  method Dequeue<T>(h: Heap<T>, dflt: T, ghost s: Shape) returns (h': Heap<T>, v: T, ghost s': Shape)
    requires Holds(h, s)
    ensures Holds(h', s')
    ensures (View(h', s'), v) == PrQueue.Dequeue(View(h, s), dflt)
    ensures Tight(h.nodes, s) ==> Tight(h'.nodes, s')
    ensures Live(h.nodes, s) && MinNoBackLink(h.nodes, s) ==> Live(h'.nodes, s')
    ensures h'.curr == h.curr
  {
    if h.root.None? {
      return h, dflt, s;
    }
    var node, prev, g, pg := FindMin(h, s);
    v := h.nodes[node].value;
    if h.nodes[node].dup && h.nodes[node].link.Some? {
      h', s' := Promote(h, s, g, pg, node, prev);
    } else {
      h', s' := Splice(h, s, g, pg, node, prev);
    }
    Dequeued(h, s, h', s', g, dflt);
  }

  /** The walk down the left spine to the node holding the first entry;
      `prev` is its parent, absent when it is the root. */
  method FindMin<T>(h: Heap<T>, ghost s: Shape)
    returns (node: nat, prev: Option<nat>, ghost g: seq<bool>, ghost pg: seq<bool>)
    requires Holds(h, s) && h.root.Some?
    ensures s.Cell? && Sub(s, g).Cell? && node == Sub(s, g).id && node < |h.nodes| && Sub(s, g).left.Nil?
    ensures prev.None? <==> g == []
    ensures prev.Some? ==> g == pg + [false] && Sub(s, pg).Cell? && prev.value == Sub(s, pg).id
    ensures TSub(Abs(h.nodes, s), g).Node? && Abs(h.nodes, s).Node?
    ensures RemoveMin(Abs(h.nodes, s)).0 == TGraft(Abs(h.nodes, s), g, RemoveMin(TSub(Abs(h.nodes, s), g)).0)
    ensures RemoveMin(Abs(h.nodes, s)).1 == h.nodes[node].value
    ensures MinNoBackLink(h.nodes, s) ==> NoBackLink(h.nodes, Sub(s, g))
  {
    var ns := h.nodes;
    ghost var T := Abs(ns, s);
    node, prev := h.root.value, None;
    g, pg := [], [];
    while ns[node].left.Some?
      invariant Sub(s, g).Cell? && node == Sub(s, g).id && node < |ns|
      invariant prev.None? <==> g == []
      invariant prev.Some? ==> g == pg + [false] && Sub(s, pg).Cell? && prev.value == Sub(s, pg).id
      invariant TSub(T, g).Node?
      invariant RemoveMin(T) == (TGraft(T, g, RemoveMin(TSub(T, g)).0), RemoveMin(TSub(T, g)).1)
      invariant MinNoBackLink(ns, s) ==> MinNoBackLink(ns, Sub(s, g))
      decreases Sub(s, g)
    {
      FitsSub(ns, s, g);
      AbsSub(ns, s, g);
      SubSnoc(s, g, false);
      MinStep(T, g);
      FitsSub(ns, s, g + [false]);
      AbsSub(ns, s, g + [false]);
      prev, node := Some(node), ns[node].left.value;
      pg, g := g, g + [false];
    }
    FitsSub(ns, s, g);
    AbsSub(ns, s, g);
  }

  /** No chain member behind the first names the tree node itself as its
      parent: the condition under which lifting the first member keeps the
      rest of the chain's links live. */
  ghost predicate NoBackLink<T>(ns: seq<Rec<T>>, s: Shape) {
    s.Cell? ==> forall k :: 0 < k < |s.chain| && s.chain[k] < |ns| ==> ns[s.chain[k]].parent != Some(s.id)
  }

  /** NoBackLink at the leftmost tree node, the one dequeue releases. */
  ghost predicate MinNoBackLink<T>(ns: seq<Rec<T>>, s: Shape) {
    match s
    case Nil => true
    case Cell(_, _, l, _) => if l.Cell? then MinNoBackLink(ns, l) else NoBackLink(ns, s)
  }

  /** One step down the left spine keeps "the minimum of the whole tree is
      the minimum of the subtree here". */
  lemma MinStep<T>(t: Tree<T>, e: seq<bool>)
    requires TSub(t, e).Node? && TSub(t, e).left.Node?
    requires RemoveMin(t) == (TGraft(t, e, RemoveMin(TSub(t, e)).0), RemoveMin(TSub(t, e)).1)
    ensures TSub(t, e + [false]).Node?
    ensures RemoveMin(t) == (TGraft(t, e + [false], RemoveMin(TSub(t, e + [false])).0), RemoveMin(TSub(t, e + [false])).1)
  {
    TGraftSnoc(t, e, false, RemoveMin(TSub(t, e).left).0);
  }

  /** Where FindMin stops: the tree node `node` at the end of the left
      spine `g`, with parent `prev` at the end of `pg`. */
  ghost predicate AtMin<T>(h: Heap<T>, s: Shape, g: seq<bool>, pg: seq<bool>, node: nat, prev: Option<nat>) {
    && Holds(h, s) && s.Cell? && Sub(s, g).Cell? && node == Sub(s, g).id && node < |h.nodes| && Sub(s, g).left.Nil?
    && (prev.None? <==> g == [])
    && (prev.Some? ==> g == pg + [false] && Sub(s, pg).Cell? && prev.value == Sub(s, pg).id)
    && TSub(Abs(h.nodes, s), g).Node?
  }

  /** What both branches of dequeue leave: the arena holds the tree with
      the subtree at `g` replaced by its minimum's removal, one entry
      fewer, the root without a parent, the cursor untouched. */
  ghost predicate Removed<T>(h: Heap<T>, s: Shape, g: seq<bool>, h': Heap<T>, s': Shape)
    requires Fits(h.nodes, s) && TSub(Abs(h.nodes, s), g).Node?
  {
    && Fits(h'.nodes, s') && Distinct(s') && h'.root == Id(s')
    && (s'.Cell? ==> s'.id < |h'.nodes| && h'.nodes[s'.id].parent == None)
    && Abs(h'.nodes, s') == TGraft(Abs(h.nodes, s), g, RemoveMin(TSub(Abs(h.nodes, s), g)).0)
    && h'.sz == h.sz - 1 && h'.curr == h.curr
  }

  /** The dequeued arena holds the model's dequeue. */
  lemma Dequeued<T>(h: Heap<T>, s: Shape, h': Heap<T>, s': Shape, g: seq<bool>, dflt: T)
    requires Holds(h, s) && s.Cell? && TSub(Abs(h.nodes, s), g).Node? && Removed(h, s, g, h', s')
    requires RemoveMin(Abs(h.nodes, s)).0 == TGraft(Abs(h.nodes, s), g, RemoveMin(TSub(Abs(h.nodes, s), g)).0)
    ensures Holds(h', s')
    ensures (View(h', s'), RemoveMin(Abs(h.nodes, s)).1) == PrQueue.Dequeue(View(h, s), dflt)
  {
    var q := View(h, s);
    assert q.root.Node? && PrQueue.Valid(q);
    var r := PrQueue.Dequeue(q, dflt);
    assert r == (PrQueue.Queue(RemoveMin(q.root).0, h.sz - 1), RemoveMin(q.root).1);
    assert PrQueue.Valid(r.0);
  }

  /** The first chain member takes the dequeued node's place. */
  method Promote<T>(h: Heap<T>, ghost s: Shape, ghost g: seq<bool>, ghost pg: seq<bool>, node: nat, prev: Option<nat>)
    returns (h': Heap<T>, ghost s': Shape)
    requires AtMin(h, s, g, pg, node, prev) && h.nodes[node].dup && h.nodes[node].link.Some?
    ensures |h'.nodes| == |h.nodes| && h'.sz == h.sz - 1 && h'.curr == h.curr
    ensures h'.root == if prev.Some? then h.root else h.nodes[node].link
    ensures Removed(h, s, g, h', s')
    ensures Tight(h.nodes, s) ==> Tight(h'.nodes, s')
    ensures Live(h.nodes, s) && NoBackLink(h.nodes, Sub(s, g)) ==> Live(h'.nodes, s')
  {
    ghost var G := Sub(s, g);
    PromoteSetup(h.nodes, s, g, pg, prev);
    var lifted := LiftRecords(h.nodes, node, prev);
    var ns', S := lifted.0, lifted.1;
    var root := if prev.Some? then h.root else Some(S);
    h' := Heap(ns', root, h.sz - 1, h.curr);
    ghost var u := Lift(G);
    s' := SGraft(s, g, u);
    ghost var ns := h.nodes;
    IdsInRange(ns, s);
    LiftFrame(ns, ns', s, G, prev);
    PromoteNode(ns, ns', G, prev);
    PromoteIds(G);
    Relink(ns, ns', s, g, pg, prev, u);
    AbsSub(ns, s, g);
    PromoteLinks(ns, ns', s, g, pg, prev);
  }

  /** Promotion keeps tight parent links tight, and live ones live when no
      member behind the first pointed back at the released node. */
  lemma PromoteLinks<T>(ns: seq<Rec<T>>, ns': seq<Rec<T>>, s: Shape, g: seq<bool>, pg: seq<bool>, prev: Option<nat>)
    requires Distinct(s) && Sub(s, g).Cell? && Lifted(ns, ns', Sub(s, g), prev)
    requires prev.None? <==> g == []
    requires prev.Some? ==> g == pg + [false] && Sub(s, pg).Cell? && prev.value == Sub(s, pg).id
    requires Ids(Lift(Sub(s, g))) <= Ids(Sub(s, g))
    requires prev.Some? ==> prev.value < |ns| && prev.value < |ns'| && ns'[prev.value] == ns[prev.value].(left := Id(Lift(Sub(s, g))))
    requires forall x :: x in Ids(s) && x !in Ids(Sub(s, g)) && Some(x) != prev ==> x < |ns| && x < |ns'| && ns'[x] == ns[x]
    ensures Tight(ns, s) ==> Tight(ns', SGraft(s, g, Lift(Sub(s, g))))
    ensures Live(ns, s) && NoBackLink(ns, Sub(s, g)) ==> Live(ns', SGraft(s, g, Lift(Sub(s, g))))
  {
    var G := Sub(s, g);
    if Tight(ns, s) {
      TightSub(ns, s, g);
      PromoteNode(ns, ns', G, prev);
      RelinkTight(ns, ns', s, g, pg, prev, Lift(G));
    }
    if Live(ns, s) && NoBackLink(ns, G) {
      LiveSub(ns, s, g);
      PromoteLive(ns, ns', G, prev);
      RelinkLive(ns, ns', s, g, pg, prev, Lift(G));
    }
  }

  /** The facts about the dequeued node's neighbourhood promotion needs:
      its first chain member, its right child and its parent are three
      different indices inside the store. */
  lemma PromoteSetup<T>(ns: seq<Rec<T>>, s: Shape, g: seq<bool>, pg: seq<bool>, prev: Option<nat>)
    requires Fits(ns, s) && Distinct(s) && Sub(s, g).Cell? && Sub(s, g).left.Nil?
    requires Sub(s, g).id < |ns| && ns[Sub(s, g).id].link.Some?
    requires prev.None? <==> g == []
    requires prev.Some? ==> g == pg + [false] && Sub(s, pg).Cell? && prev.value == Sub(s, pg).id
    ensures var G := Sub(s, g);
      && Fits(ns, G) && Distinct(G) && |G.chain| > 0 && ns[G.id].link == Some(G.chain[0])
      && G.chain[0] < |ns| && ns[G.chain[0]].right == None && G.chain[0] in Ids(G)
      && ns[G.id].right == Id(G.right) && (G.right.Cell? ==> G.right.id < |ns| && G.right.id in Ids(G) && G.right.id != G.chain[0])
      && (prev.Some? ==> prev.value < |ns| && prev.value !in Ids(G))
      && Ids(G) <= Ids(s)
  {
    var G := Sub(s, g);
    FitsSub(ns, s, g);
    DistinctSub(s, g);
    ParentOutside(s, g, pg, prev);
    IdsInRange(ns, s);
    SubIds(s, g);
    assert ChainRec(ns, G.id, G.chain, 0);
    assert Ids(G) == Ids(G.left) + ({G.id} + Members(G.chain)) + Ids(G.right);
    assert G.chain[0] in Members(G.chain);
    assert G.right.Cell? ==> G.right.id in Ids(G.right);
  }

  /** The record updates of promotion, in the order the pointer code makes
      them: the first chain member `S` takes the right subtree, the right
      child points back to `S`, the parent's left pointer (or the root)
      names `S`, and `S` points back to the parent. */
  function LiftRecords<T>(ns: seq<Rec<T>>, node: nat, prev: Option<nat>): (r: (seq<Rec<T>>, nat))
    requires node < |ns| && ns[node].link.Some? && ns[node].link.value < |ns|
    requires ns[ns[node].link.value].right == None
    requires ns[node].right.Some? ==> ns[node].right.value < |ns| && ns[node].right.value != ns[node].link.value
    requires prev.Some? ==> prev.value < |ns| && prev.value != ns[node].link.value && prev != ns[node].right
    ensures r.1 == ns[node].link.value && |r.0| == |ns|
    ensures r.0[r.1] == ns[r.1].(right := ns[node].right, parent := prev)
    ensures ns[node].right.Some? ==> r.0[ns[node].right.value] == ns[ns[node].right.value].(parent := Some(r.1))
    ensures prev.Some? ==> r.0[prev.value] == ns[prev.value].(left := Some(r.1))
    ensures forall x :: 0 <= x < |ns| && x != r.1 && Some(x) != ns[node].right && Some(x) != prev ==> r.0[x] == ns[x]
  {
    var S, R := ns[node].link.value, ns[node].right;
    var a := if R.Some? then ns[S := ns[S].(right := R)] else ns;
    var b := if R.Some? then a[R.value := a[R.value].(parent := Some(S))] else a;
    var c := if prev.Some? then b[prev.value := b[prev.value].(left := Some(S))] else b;
    (c[S := c[S].(parent := prev)], S)
  }

  /** What LiftRecords leaves, seen from the shapes: the node's records as
      a promotion wants them, and every index outside the node's subtree
      other than its parent untouched. */
  lemma LiftFrame<T>(ns: seq<Rec<T>>, ns': seq<Rec<T>>, s: Shape, G: Shape, prev: Option<nat>)
    requires G.Cell? && G.left.Nil? && Fits(ns, G) && Distinct(G) && |G.chain| > 0 && Ids(G) <= Ids(s)
    requires G.chain[0] < |ns| && G.chain[0] in Ids(G) && ns[G.id].right == Id(G.right)
    requires G.right.Cell? ==> G.right.id < |ns| && G.right.id in Ids(G)
    requires prev.Some? ==> prev.value !in Ids(G)
    requires (forall x :: x in Ids(s) ==> x < |ns|) && |ns'| == |ns|
    requires ns'[G.chain[0]] == ns[G.chain[0]].(right := Id(G.right), parent := prev)
    requires G.right.Cell? ==> ns'[G.right.id] == ns[G.right.id].(parent := Some(G.chain[0]))
    requires forall x :: 0 <= x < |ns| && x != G.chain[0] && Some(x) != ns[G.id].right && Some(x) != prev ==> ns'[x] == ns[x]
    ensures Lifted(ns, ns', G, prev)
    ensures forall x :: x in Ids(s) && x !in Ids(G) && Some(x) != prev ==> x < |ns| && x < |ns'| && ns'[x] == ns[x]
  {
    forall x | x in Ids(G) && x != G.id && x != G.chain[0] && Some(x) != Id(G.right)
      ensures x < |ns| && ns'[x] == ns[x]
    {
      assert x in Ids(s) && Some(x) != prev && Some(x) != ns[G.id].right;
    }
    forall x | x in Ids(s) && x !in Ids(G) && Some(x) != prev
      ensures x < |ns| && x < |ns'| && ns'[x] == ns[x]
    {
      assert x != G.chain[0] && Some(x) != ns[G.id].right;
    }
  }

  /** The dequeued node's parent lies outside the node's subtree, and the
      root lies outside it unless it is the node itself. */
  lemma ParentOutside(s: Shape, g: seq<bool>, pg: seq<bool>, prev: Option<nat>)
    requires Distinct(s) && Sub(s, g).Cell?
    requires prev.None? <==> g == []
    requires prev.Some? ==> g == pg + [false] && Sub(s, pg).Cell? && prev.value == Sub(s, pg).id
    ensures prev.Some? ==> prev.value !in Ids(Sub(s, g)) && prev.value in Ids(s)
    ensures prev.Some? ==> s.id !in Ids(Sub(s, g))
  {
    if prev.Some? {
      var P := Sub(s, pg);
      SubSnoc(s, pg, false);
      DistinctSub(s, pg);
      SubIds(s, pg);
      assert Ids(P) == Ids(P.left) + ({P.id} + Members(P.chain)) + Ids(P.right);
      SubIds(s, g);
      assert Ids(s) == Ids(s.left) + ({s.id} + Members(s.chain)) + Ids(s.right);
    }
  }

  /** The records a promotion leaves: the first chain member takes the
      node's right subtree and `prev` as parent, the right subtree's root
      points back to it, and the node's other indices keep their records. */
  ghost predicate Lifted<T>(ns: seq<Rec<T>>, ns': seq<Rec<T>>, G: Shape, prev: Option<nat>) {
    && G.Cell? && |G.chain| > 0 && G.left.Nil? && Fits(ns, G) && Distinct(G) && |ns'| == |ns|
    && G.chain[0] < |ns| && ns'[G.chain[0]] == ns[G.chain[0]].(right := Id(G.right), parent := prev)
    && (G.right.Cell? ==> G.right.id < |ns| && ns'[G.right.id] == ns[G.right.id].(parent := Some(G.chain[0])))
    && (forall x :: x in Ids(G) && x != G.id && x != G.chain[0] && Some(x) != Id(G.right) ==> x < |ns| && ns'[x] == ns[x])
  }

  /** The first chain member as a tree node over the rest of the chain. */
  function Lift(G: Shape): Shape
    requires G.Cell? && |G.chain| > 0
  {
    Cell(G.chain[0], G.chain[1..], Nil, G.right)
  }

  /** The promoted member holds the node's subtree with its minimum
      removed. */
  lemma PromoteNode<T>(ns: seq<Rec<T>>, ns': seq<Rec<T>>, G: Shape, prev: Option<nat>)
    requires Lifted(ns, ns', G, prev)
    ensures Fits(ns', Lift(G)) && Abs(ns', Lift(G)) == RemoveMin(Abs(ns, G)).0
    ensures Tight(ns, G) ==> Tight(ns', Lift(G))
  {
    var Cell(i, ch, l, r) := G;
    var S, rest := ch[0], ch[1..];
    PromoteRight(ns, ns', G, prev);
    PromoteChain(ns, ns', G, prev);
    FitsCell(ns', S, rest, Nil, r);
    assert Lift(G) == Cell(S, rest, Nil, r);
    PromoteAbs(ns, ns', G);
    if Tight(ns, G) {
      RestKept(ns, ns', G, prev);
      PromoteTight(ns, ns', G);
    }
  }

  /** The promoted member's chain keeps tight parent links. */
  lemma PromoteTight<T>(ns: seq<Rec<T>>, ns': seq<Rec<T>>, G: Shape)
    requires G.Cell? && |G.chain| > 0 && Tight(ns, G) && Tight(ns', G.right) && |ns'| == |ns|
    requires forall j :: 0 < j < |G.chain| ==> G.chain[j] < |ns| && ns'[G.chain[j]] == ns[G.chain[j]]
    ensures Tight(ns', Lift(G))
  {
    var ch := G.chain;
    var rest := ch[1..];
    forall j | 0 < j < |rest| && rest[j] < |ns'|
      ensures ns'[rest[j]].parent == Some(rest[j - 1])
    {
      assert rest[j] == ch[j + 1] && rest[j - 1] == ch[j];
      assert ns'[ch[j + 1]] == ns[ch[j + 1]];
      assert ns[ch[j + 1]].parent == Some(ch[j]);
    }
    if |rest| > 0 {
      assert ns'[ch[1]] == ns[ch[1]] && ns[ch[1]].parent == Some(ch[0]);
    }
    assert Lift(G) == Cell(ch[0], rest, Nil, G.right);
  }

  /** The promoted member's chain keeps live parent links when no member
      behind it pointed back at the released node: each member's parent was
      an earlier member, which is now the promoted one or a member before
      it. */
  lemma PromoteLive<T>(ns: seq<Rec<T>>, ns': seq<Rec<T>>, G: Shape, prev: Option<nat>)
    requires Lifted(ns, ns', G, prev) && Live(ns, G) && NoBackLink(ns, G)
    ensures Live(ns', Lift(G))
  {
    var Cell(i, ch, l, r) := G;
    var rest := ch[1..];
    RestKept(ns, ns', G, prev);
    PromoteRight(ns, ns', G, prev);
    forall j | 0 <= j < |rest| && rest[j] < |ns'|
      ensures LiveParent(ns', ch[0], rest, j)
    {
      assert rest[j] == ch[j + 1] && ns'[ch[j + 1]] == ns[ch[j + 1]];
      assert LiveParent(ns, i, ch, j + 1);
      var j' :| 0 <= j' < j + 1 && ns[ch[j + 1]].parent == Some(ch[j']);
      if j' > 0 {
        assert ch[j'] == rest[j' - 1];
      }
    }
    assert Lift(G) == Cell(ch[0], rest, Nil, r);
  }

  /** The tree the promoted member holds is the node's tree with its first
      entry removed. */
  lemma PromoteAbs<T>(ns: seq<Rec<T>>, ns': seq<Rec<T>>, G: Shape)
    requires G.Cell? && G.left.Nil? && |G.chain| > 0 && Fits(ns, G) && Fits(ns', Lift(G))
    requires ns'[G.chain[0]].prio == ns[G.id].prio && ns'[G.chain[0]].value == ChainValues(ns, G.chain)[0]
    requires ChainValues(ns', G.chain[1..]) == ChainValues(ns, G.chain)[1..]
    requires Fits(ns, G.right) && Fits(ns', G.right) && Abs(ns', G.right) == Abs(ns, G.right)
    ensures Abs(ns', Lift(G)) == RemoveMin(Abs(ns, G)).0
  {
    var cv := ChainValues(ns, G.chain);
    assert Abs(ns, G) == Node(ns[G.id].prio, ns[G.id].value, cv, Leaf, Abs(ns, G.right));
    assert Abs(ns', Lift(G)) == Node(ns[G.id].prio, cv[0], cv[1..], Leaf, Abs(ns, G.right));
  }

  /** The right subtree moves under the promoted member unchanged but for
      its root's `parent`. */
  lemma PromoteRight<T>(ns: seq<Rec<T>>, ns': seq<Rec<T>>, G: Shape, prev: Option<nat>)
    requires Lifted(ns, ns', G, prev)
    ensures Fits(ns', G.right) && Abs(ns', G.right) == Abs(ns, G.right)
    ensures Tight(ns, G.right) ==> Tight(ns', G.right)
    ensures Live(ns, G.right) ==> Live(ns', G.right)
    ensures G.right.Cell? ==> ns'[G.right.id].parent == Some(G.chain[0])
  {
    var Cell(i, ch, l, r) := G;
    assert Ids(G) == Ids(l) + ({i} + Members(ch)) + Ids(r);
    assert Fits(ns, r) && Distinct(r);
    forall x | x in Ids(r) && (r.Nil? || x != r.id)
      ensures x < |ns| && x < |ns'| && ns'[x] == ns[x]
    {
      assert x in Ids(G) && x != i && x != ch[0];
    }
    FrameRoot(ns, ns', r);
    if Live(ns, r) {
      FrameRootLive(ns, ns', r);
    }
  }

  /** The rest of the chain behind the promoted member. */
  lemma PromoteChain<T>(ns: seq<Rec<T>>, ns': seq<Rec<T>>, G: Shape, prev: Option<nat>)
    requires Lifted(ns, ns', G, prev)
    ensures forall x :: x in G.chain[1..] ==> x < |ns'| && ns'[x].prio == ns'[G.chain[0]].prio
    ensures forall j :: 0 <= j < |G.chain| - 1 ==> ChainRec(ns', G.chain[0], G.chain[1..], j)
    ensures ns'[G.chain[0]].link == LinkAt(G.chain[1..], 0) && ns'[G.chain[0]].dup && ns'[G.chain[0]].left == None
    ensures ns'[G.chain[0]].prio == ns[G.id].prio && ns'[G.chain[0]].value == ChainValues(ns, G.chain)[0]
    ensures ChainValues(ns', G.chain[1..]) == ChainValues(ns, G.chain)[1..]
  {
    var Cell(i, ch, l, r) := G;
    RestKept(ns, ns', G, prev);
    assert ChainRec(ns, i, ch, 0);
    ChainShift(ns, ns', i, ch);
    IdsInRange(ns, G);
    assert forall x :: x in ch ==> x in Members(ch);
    ChainValuesTail(ns, ns', ch);
  }

  /** Members behind the first that keep their records keep their values. */
  lemma ChainValuesTail<T>(ns: seq<Rec<T>>, ns': seq<Rec<T>>, ch: seq<nat>)
    requires |ch| > 0 && |ns'| == |ns| && forall x :: x in ch ==> x < |ns|
    requires forall j :: 0 < j < |ch| ==> ch[j] < |ns| && ns'[ch[j]] == ns[ch[j]]
    ensures ChainValues(ns', ch[1..]) == ChainValues(ns, ch)[1..]
  {
    var a, b := ChainValues(ns', ch[1..]), ChainValues(ns, ch)[1..];
    forall j | 0 <= j < |a|
      ensures a[j] == b[j]
    {
      assert ch[1..][j] == ch[j + 1];
    }
  }

  /** Promotion leaves the records of the chain members behind the first
      untouched. */
  lemma RestKept<T>(ns: seq<Rec<T>>, ns': seq<Rec<T>>, G: Shape, prev: Option<nat>)
    requires Lifted(ns, ns', G, prev)
    ensures forall j :: 0 < j < |G.chain| ==> G.chain[j] < |ns| && ns'[G.chain[j]] == ns[G.chain[j]]
  {
    var Cell(i, ch, l, r) := G;
    IdsInRange(ns, G);
    assert Ids(G) == Ids(l) + ({i} + Members(ch)) + Ids(r);
    forall j | 0 < j < |ch|
      ensures ch[j] < |ns| && ns'[ch[j]] == ns[ch[j]]
    {
      assert ch[j] in Members(ch);
      assert ([i] + ch)[1] != ([i] + ch)[j + 1];
      assert ([i] + ch)[0] != ([i] + ch)[j + 1];
    }
  }

  /** A chain whose members behind the first keep their records is, from
      its first member on, a chain hanging off that member. */
  lemma ChainShift<T>(ns: seq<Rec<T>>, ns': seq<Rec<T>>, i: nat, ch: seq<nat>)
    requires i < |ns| && |ch| > 0 && |ns'| == |ns| && ch[0] < |ns|
    requires forall j :: 0 <= j < |ch| ==> ChainRec(ns, i, ch, j)
    requires forall j :: 0 < j < |ch| ==> ch[j] < |ns| && ns'[ch[j]] == ns[ch[j]]
    requires ns'[ch[0]].prio == ns[i].prio
    ensures forall j :: 0 <= j < |ch| - 1 ==> ChainRec(ns', ch[0], ch[1..], j)
    ensures forall x :: x in ch[1..] ==> x < |ns'| && ns'[x].prio == ns'[ch[0]].prio
  {
    forall j | 0 <= j < |ch| - 1
      ensures ChainRec(ns', ch[0], ch[1..], j)
    {
      assert ChainRec(ns, i, ch, j + 1);
    }
    forall x | x in ch[1..]
      ensures x < |ns'| && ns'[x].prio == ns'[ch[0]].prio
    {
      var j :| 0 <= j < |ch| - 1 && ch[1..][j] == x;
      assert ChainRec(ns, i, ch, j + 1);
    }
  }

  /** The promoted member's subtree uses no index twice, and only indices
      of the node's subtree. */
  lemma PromoteIds(G: Shape)
    requires G.Cell? && |G.chain| > 0 && Distinct(G)
    ensures Distinct(Lift(G)) && Ids(Lift(G)) <= Ids(G)
  {
    var Cell(i, ch, l, r) := G;
    var S, rest := ch[0], ch[1..];
    assert ch == [S] + rest;
    assert Members(ch) == {S} + Members(rest);
    NoDupTail(i, ch);
    assert Ids(Lift(G)) == {} + ({S} + Members(rest)) + Ids(r);
  }

  lemma NoDupTail(i: nat, ch: seq<nat>)
    requires NoDup([i] + ch)
    ensures NoDup(ch)
  {
    forall a, b | 0 <= a < b < |ch|
      ensures ch[a] != ch[b]
    {
      assert ([i] + ch)[a + 1] != ([i] + ch)[b + 1];
    }
  }

  /** Putting `u` where the dequeued node was: the parent's left pointer
      (or the root) now names `u`, and nothing else outside the node's
      subtree changed. */
  lemma Relink<T>(ns: seq<Rec<T>>, ns': seq<Rec<T>>, s: Shape, g: seq<bool>, pg: seq<bool>, prev: Option<nat>, u: Shape)
    requires Fits(ns, s) && Distinct(s) && Sub(s, g).Cell?
    requires prev.None? <==> g == []
    requires prev.Some? ==> g == pg + [false] && Sub(s, pg).Cell? && prev.value == Sub(s, pg).id
    requires Fits(ns', u) && Distinct(u) && Ids(u) <= Ids(Sub(s, g))
    requires u.Cell? ==> ns'[u.id].parent == prev
    requires prev.Some? ==> prev.value < |ns| && prev.value < |ns'| && ns'[prev.value] == ns[prev.value].(left := Id(u))
    requires forall x :: x in Ids(s) && x !in Ids(Sub(s, g)) && Some(x) != prev ==> x < |ns| && x < |ns'| && ns'[x] == ns[x]
    ensures Fits(ns', SGraft(s, g, u)) && Distinct(SGraft(s, g, u))
    ensures Abs(ns', SGraft(s, g, u)) == TGraft(Abs(ns, s), g, Abs(ns', u))
    ensures Id(SGraft(s, g, u)) == if prev.None? then Id(u) else Id(s)
    ensures SGraft(s, g, u).Cell? ==> SGraft(s, g, u).id < |ns'| && ns'[SGraft(s, g, u).id].parent == (if prev.None? then prev else ns[s.id].parent)
  {
    GraftIds(s, g, u, {});
    if prev.Some? {
      SubSnoc(s, pg, false);
      ParentOutside(s, g, pg, prev);
      RelinkBelow(ns, ns', s, pg, u);
    }
  }

  /** The same when the node hangs left of `Sub(s, pg)`. */
  lemma RelinkBelow<T>(ns: seq<Rec<T>>, ns': seq<Rec<T>>, s: Shape, pg: seq<bool>, u: Shape)
    requires Fits(ns, s) && Distinct(s) && Sub(s, pg).Cell? && Fits(ns', u) && s.id !in Ids(Sub(s, pg).left)
    requires Ids(u) <= Ids(Sub(s, pg).left) && (u.Cell? ==> ns'[u.id].parent == Some(Sub(s, pg).id))
    requires Sub(s, pg).id < |ns| && Sub(s, pg).id < |ns'| && ns'[Sub(s, pg).id] == ns[Sub(s, pg).id].(left := Id(u))
    requires forall x :: x in Ids(s) && x !in Ids(Sub(s, pg).left) && x != Sub(s, pg).id ==> x < |ns| && x < |ns'| && ns'[x] == ns[x]
    ensures Fits(ns', SGraft(s, pg + [false], u))
    ensures Abs(ns', SGraft(s, pg + [false], u)) == TGraft(Abs(ns, s), pg + [false], Abs(ns', u))
    ensures Id(SGraft(s, pg + [false], u)) == Id(s)
    ensures s.id < |ns'| && ns'[s.id].parent == ns[s.id].parent
  {
    var P := Sub(s, pg);
    var P' := P.(left := u);
    FitsSub(ns, s, pg);
    RelinkFrame(ns, ns', s, pg);
    ReplaceChild(ns, ns', P, false, u);
    GraftFits(ns, ns', s, pg, P');
    SGraftSnoc(s, pg, false, u);
    AbsSub(ns, s, pg);
    TGraftSnoc(Abs(ns, s), pg, false, Abs(ns', u));
    GraftRoot(s, pg, P');
    assert s.id in Ids(s);
  }

  /** Relinking below `Sub(s, pg)` keeps the records of its right subtree,
      of its chain, and of everything outside it. */
  lemma RelinkFrame<T>(ns: seq<Rec<T>>, ns': seq<Rec<T>>, s: Shape, pg: seq<bool>)
    requires Distinct(s) && Sub(s, pg).Cell?
    requires forall x :: x in Ids(s) && x !in Ids(Sub(s, pg).left) && x != Sub(s, pg).id ==> x < |ns| && x < |ns'| && ns'[x] == ns[x]
    ensures forall x :: x in Ids(Other(Sub(s, pg), false)) ==> x < |ns| && x < |ns'| && ns'[x] == ns[x]
    ensures forall x :: x in Sub(s, pg).chain ==> x < |ns| && x < |ns'| && ns'[x] == ns[x]
    ensures forall x :: x in Ids(s) && x !in Ids(Sub(s, pg)) ==> x < |ns| && x < |ns'| && ns'[x] == ns[x]
  {
    var P := Sub(s, pg);
    DistinctSub(s, pg);
    SubIds(s, pg);
    assert Ids(P) == Ids(P.left) + ({P.id} + Members(P.chain)) + Ids(P.right);
    NoDupHead(P.id, P.chain);
    forall x | x in Ids(P.right)
      ensures x < |ns| && x < |ns'| && ns'[x] == ns[x]
    {
      assert x in Ids(P);
    }
    forall x | x in P.chain
      ensures x < |ns| && x < |ns'| && ns'[x] == ns[x]
    {
      assert x in Members(P.chain);
    }
    forall x | x in Ids(s) && x !in Ids(P)
      ensures x < |ns| && x < |ns'| && ns'[x] == ns[x]
    {
      assert x !in Ids(P.left) && x != P.id;
    }
  }

  lemma RelinkTight<T>(ns: seq<Rec<T>>, ns': seq<Rec<T>>, s: Shape, g: seq<bool>, pg: seq<bool>, prev: Option<nat>, u: Shape)
    requires Tight(ns, s) && Distinct(s) && Sub(s, g).Cell? && Tight(ns', u)
    requires prev.None? <==> g == []
    requires prev.Some? ==> g == pg + [false] && Sub(s, pg).Cell? && prev.value == Sub(s, pg).id
    requires Ids(u) <= Ids(Sub(s, g))
    requires prev.Some? ==> prev.value < |ns| && prev.value < |ns'| && ns'[prev.value] == ns[prev.value].(left := Id(u))
    requires forall x :: x in Ids(s) && x !in Ids(Sub(s, g)) && Some(x) != prev ==> x < |ns| && x < |ns'| && ns'[x] == ns[x]
    ensures Tight(ns', SGraft(s, g, u))
  {
    if prev.Some? {
      SubSnoc(s, pg, false);
      RelinkBelowTight(ns, ns', s, pg, u);
    }
  }

  lemma RelinkBelowTight<T>(ns: seq<Rec<T>>, ns': seq<Rec<T>>, s: Shape, pg: seq<bool>, u: Shape)
    requires Tight(ns, s) && Distinct(s) && Sub(s, pg).Cell? && Tight(ns', u)
    requires Sub(s, pg).id < |ns| && Sub(s, pg).id < |ns'| && ns'[Sub(s, pg).id] == ns[Sub(s, pg).id].(left := Id(u))
    requires forall x :: x in Ids(s) && x !in Ids(Sub(s, pg).left) && x != Sub(s, pg).id ==> x < |ns| && x < |ns'| && ns'[x] == ns[x]
    ensures Tight(ns', SGraft(s, pg + [false], u))
  {
    var P := Sub(s, pg);
    var P' := P.(left := u);
    RelinkFrame(ns, ns', s, pg);
    TightSub(ns, s, pg);
    ReplaceChildTight(ns, ns', P, false, u);
    GraftTight(ns, ns', s, pg, P');
    SGraftSnoc(s, pg, false, u);
  }

  lemma RelinkLive<T>(ns: seq<Rec<T>>, ns': seq<Rec<T>>, s: Shape, g: seq<bool>, pg: seq<bool>, prev: Option<nat>, u: Shape)
    requires Live(ns, s) && Distinct(s) && Sub(s, g).Cell? && Live(ns', u)
    requires prev.None? <==> g == []
    requires prev.Some? ==> g == pg + [false] && Sub(s, pg).Cell? && prev.value == Sub(s, pg).id
    requires Ids(u) <= Ids(Sub(s, g))
    requires prev.Some? ==> prev.value < |ns| && prev.value < |ns'| && ns'[prev.value] == ns[prev.value].(left := Id(u))
    requires forall x :: x in Ids(s) && x !in Ids(Sub(s, g)) && Some(x) != prev ==> x < |ns| && x < |ns'| && ns'[x] == ns[x]
    ensures Live(ns', SGraft(s, g, u))
  {
    if prev.Some? {
      SubSnoc(s, pg, false);
      RelinkBelowLive(ns, ns', s, pg, u);
    }
  }

  lemma RelinkBelowLive<T>(ns: seq<Rec<T>>, ns': seq<Rec<T>>, s: Shape, pg: seq<bool>, u: Shape)
    requires Live(ns, s) && Distinct(s) && Sub(s, pg).Cell? && Live(ns', u)
    requires Sub(s, pg).id < |ns| && Sub(s, pg).id < |ns'| && ns'[Sub(s, pg).id] == ns[Sub(s, pg).id].(left := Id(u))
    requires forall x :: x in Ids(s) && x !in Ids(Sub(s, pg).left) && x != Sub(s, pg).id ==> x < |ns| && x < |ns'| && ns'[x] == ns[x]
    ensures Live(ns', SGraft(s, pg + [false], u))
  {
    var P := Sub(s, pg);
    var P' := P.(left := u);
    RelinkFrame(ns, ns', s, pg);
    LiveSub(ns, s, pg);
    ReplaceChildLive(ns, ns', P, false, u);
    GraftLive(ns, ns', s, pg, P');
    SGraftSnoc(s, pg, false, u);
  }

  /** No chain behind the dequeued node: its right subtree (perhaps empty)
      takes its place. */
  method Splice<T>(h: Heap<T>, ghost s: Shape, ghost g: seq<bool>, ghost pg: seq<bool>, node: nat, prev: Option<nat>)
    returns (h': Heap<T>, ghost s': Shape)
    requires AtMin(h, s, g, pg, node, prev) && !(h.nodes[node].dup && h.nodes[node].link.Some?)
    ensures |h'.nodes| == |h.nodes| && h'.sz == h.sz - 1 && h'.curr == h.curr
    ensures h'.root == if prev.Some? then h.root else h.nodes[node].right
    ensures Removed(h, s, g, h', s')
    ensures Tight(h.nodes, s) ==> Tight(h'.nodes, s')
    ensures Live(h.nodes, s) ==> Live(h'.nodes, s')
  {
    ghost var G := Sub(s, g);
    SpliceSetup(h.nodes, s, g, pg, prev);
    var ns' := SpliceRecords(h.nodes, node, prev);
    var root := if prev.Some? then h.root else h.nodes[node].right;
    h' := Heap(ns', root, h.sz - 1, h.curr);
    s' := SGraft(s, g, G.right);
    ghost var ns := h.nodes;
    IdsInRange(ns, s);
    SpliceFrame(ns, ns', s, G, prev);
    SpliceNode(ns, ns', G, prev);
    Relink(ns, ns', s, g, pg, prev, G.right);
    AbsSub(ns, s, g);
    if Tight(ns, s) {
      TightSub(ns, s, g);
      RelinkTight(ns, ns', s, g, pg, prev, G.right);
    }
    if Live(ns, s) {
      LiveSub(ns, s, g);
      RelinkLive(ns, ns', s, g, pg, prev, G.right);
    }
  }

  /** The facts about the dequeued node's neighbourhood splicing needs:
      its right child and its parent are different indices inside the
      store. */
  lemma SpliceSetup<T>(ns: seq<Rec<T>>, s: Shape, g: seq<bool>, pg: seq<bool>, prev: Option<nat>)
    requires Fits(ns, s) && Distinct(s) && Sub(s, g).Cell? && Sub(s, g).left.Nil?
    requires prev.None? <==> g == []
    requires prev.Some? ==> g == pg + [false] && Sub(s, pg).Cell? && prev.value == Sub(s, pg).id
    requires Sub(s, g).id < |ns| && !(ns[Sub(s, g).id].dup && ns[Sub(s, g).id].link.Some?)
    ensures var G := Sub(s, g);
      && Fits(ns, G) && Distinct(G) && |G.chain| == 0
      && ns[G.id].right == Id(G.right) && (G.right.Cell? ==> G.right.id < |ns| && G.right.id in Ids(G))
      && (prev.Some? ==> prev.value < |ns| && prev.value !in Ids(G))
      && Ids(G) <= Ids(s)
  {
    var G := Sub(s, g);
    FitsSub(ns, s, g);
    DistinctSub(s, g);
    ParentOutside(s, g, pg, prev);
    IdsInRange(ns, s);
    SubIds(s, g);
    assert |G.chain| == 0;
    assert Ids(G) == Ids(G.left) + ({G.id} + Members(G.chain)) + Ids(G.right);
    assert G.right.Cell? ==> G.right.id in Ids(G.right);
  }

  /** The record updates of splicing, in the order the pointer code makes
      them: the right child points back to the parent, and the parent's
      left pointer names the right child; at the root the right child
      loses its parent. */
  method SpliceRecords<T>(ns: seq<Rec<T>>, node: nat, prev: Option<nat>) returns (ns': seq<Rec<T>>)
    requires node < |ns| && (ns[node].right.Some? ==> ns[node].right.value < |ns|)
    requires prev.Some? ==> prev.value < |ns| && prev != ns[node].right
    ensures |ns'| == |ns|
    ensures ns[node].right.Some? ==> ns'[ns[node].right.value] == ns[ns[node].right.value].(parent := prev)
    ensures prev.Some? ==> ns'[prev.value] == ns[prev.value].(left := ns[node].right)
    ensures forall x :: 0 <= x < |ns| && Some(x) != ns[node].right && Some(x) != prev ==> ns'[x] == ns[x]
  {
    ns' := ns;
    var right := ns[node].right;
    if right.Some? {
      ns' := ns'[right.value := ns'[right.value].(parent := prev)];
    }
    if prev.Some? {
      ns' := ns'[prev.value := ns'[prev.value].(left := right)];
    } else if right.Some? {
      ns' := ns'[right.value := ns'[right.value].(parent := None)];
    }
  }

  /** What SpliceRecords leaves, seen from the shapes. */
  lemma SpliceFrame<T>(ns: seq<Rec<T>>, ns': seq<Rec<T>>, s: Shape, G: Shape, prev: Option<nat>)
    requires G.Cell? && Fits(ns, G) && Ids(G) <= Ids(s) && ns[G.id].right == Id(G.right)
    requires G.right.Cell? ==> G.right.id < |ns| && G.right.id in Ids(G)
    requires prev.Some? ==> prev.value !in Ids(G)
    requires (forall x :: x in Ids(s) ==> x < |ns|) && |ns'| == |ns|
    requires forall x :: 0 <= x < |ns| && Some(x) != ns[G.id].right && Some(x) != prev ==> ns'[x] == ns[x]
    ensures forall x :: x in Ids(G.right) && Some(x) != Id(G.right) ==> x < |ns| && ns'[x] == ns[x]
    ensures forall x :: x in Ids(s) && x !in Ids(G) && Some(x) != prev ==> x < |ns| && x < |ns'| && ns'[x] == ns[x]
  {
    assert Ids(G) == Ids(G.left) + ({G.id} + Members(G.chain)) + Ids(G.right);
    forall x | x in Ids(G.right) && Some(x) != Id(G.right)
      ensures x < |ns| && ns'[x] == ns[x]
    {
      assert x in Ids(s) && Some(x) != prev && Some(x) != ns[G.id].right;
    }
    forall x | x in Ids(s) && x !in Ids(G) && Some(x) != prev
      ensures x < |ns| && x < |ns'| && ns'[x] == ns[x]
    {
      assert Some(x) != ns[G.id].right;
    }
  }

  /** The right subtree, with only its root's `parent` rewritten, is the
      node's subtree with its minimum (the node itself) removed. */
  lemma SpliceNode<T>(ns: seq<Rec<T>>, ns': seq<Rec<T>>, G: Shape, prev: Option<nat>)
    requires G.Cell? && |G.chain| == 0 && G.left.Nil? && Fits(ns, G) && Distinct(G) && |ns'| == |ns|
    requires G.right.Cell? ==> G.right.id < |ns| && ns'[G.right.id] == ns[G.right.id].(parent := prev)
    requires forall x :: x in Ids(G.right) && Some(x) != Id(G.right) ==> x < |ns| && ns'[x] == ns[x]
    ensures Fits(ns', G.right) && Distinct(G.right) && Ids(G.right) <= Ids(G)
    ensures G.right.Cell? ==> ns'[G.right.id].parent == prev
    ensures Abs(ns', G.right) == RemoveMin(Abs(ns, G)).0
    ensures Tight(ns, G) ==> Tight(ns', G.right)
    ensures Live(ns, G) ==> Live(ns', G.right)
  {
    var r := G.right;
    IdsInRange(ns, G);
    assert Ids(G) == Ids(G.left) + ({G.id} + Members(G.chain)) + Ids(r);
    FrameRoot(ns, ns', r);
    assert ChainValues(ns, G.chain) == [];
    if Live(ns, G) {
      FrameRootLive(ns, ns', r);
    }
  }

  // ---------------------------------------------------------------------
  // the cursor after the updates
  // ---------------------------------------------------------------------

  /** With live parent links, enqueue as written followed by begin() and
      next() until it returns false writes the new listing: the old one
      with the entry placed after the last entry of priority at most `p`. */
  method ListAfterEnqueue<T>(h: Heap<T>, v: T, p: int, ghost s: Shape) returns (written: seq<Entry<T>>, h': Heap<T>)
    requires Holds(h, s) && Live(h.nodes, s)
    ensures written == InsertAfterLE(PrQueue.ToString(View(h, s)), p, v)
    ensures h'.sz == h.sz + 1 && h'.curr == None
  {
    ghost var s';
    h', s' := Enqueue(h, v, p, s);
    written, h' := Cursor.Traverse(h', s', v);
  }

  /** With live parent links and no member of the released node's chain
      pointing back at it, a dequeue followed by a full traversal writes
      the old listing without its first entry; the dequeued value is that
      entry's. */
  method ListAfterDequeue<T>(h: Heap<T>, dflt: T, ghost s: Shape) returns (v: T, written: seq<Entry<T>>, h': Heap<T>)
    requires Holds(h, s) && Live(h.nodes, s) && MinNoBackLink(h.nodes, s) && h.root.Some?
    ensures var listing := PrQueue.ToString(View(h, s));
            |listing| > 0 && v == listing[0].value && written == listing[1..]
    ensures h'.sz == h.sz - 1 && h'.curr == None
  {
    ghost var s';
    h', v, s' := Dequeue(h, dflt, s);
    written, h' := Cursor.Traverse(h', s', dflt);
  }

  /** The queue of the fourth-call finding, built by the record-level
      enqueue itself from an empty queue: after begin() and next() as
      written until it returns false, one more call writes (10, 2) again
      and returns true. */
  method FourthCallFromEnqueue() returns (more: bool, value: int, prio: int)
    ensures more && value == 10 && prio == 2
  {
    var h: Heap<int> := Heap([], None, 0, None);
    ghost var s := Nil;
    h, s := Enqueue(h, 10, 2, s);
    h, s := Enqueue(h, 20, 1, s);
    h, s := Enqueue(h, 30, 3, s);
    assert Abs(h.nodes, s) == Node(2, 10, [], Node(1, 20, [], Leaf, Leaf), Node(3, 30, [], Leaf, Leaf));
    more, value, prio := Cursor.AfterTraverse(h, s, 0, 0);
  }

  /** Tight links never point back at the tree node from behind the first
      member, so the corrected enqueue always leaves a dequeue that keeps
      its links live. */
  lemma {:induction false} TightNoBackLink<T>(ns: seq<Rec<T>>, s: Shape)
    requires Tight(ns, s) && Distinct(s)
    ensures MinNoBackLink(ns, s)
  {
    match s
    case Nil =>
    case Cell(i, ch, l, r) =>
      if l.Cell? {
        TightNoBackLink(ns, l);
      } else {
        forall k | 0 < k < |ch| && ch[k] < |ns|
          ensures ns[ch[k]].parent != Some(i)
        {
          assert ns[ch[k]].parent == Some(ch[k - 1]);
          assert ([i] + ch)[0] != ([i] + ch)[k];
        }
      }
  }

  // ---------------------------------------------------------------------
  // the parent lag of a duplicate enqueue
  // ---------------------------------------------------------------------

  /** The records after enqueue("a", 2), enqueue("b", 2), enqueue("c", 2)
      and one dequeue, built by the same record updates the methods above
      make: Plant's record, two chain appends at the chain end ChainEnd
      reports, and the promotion of "b". As written, the appended member's
      parent is the member before the chain's last (`before`); `fixed`
      uses the last member itself. */
  function Replay(fixed: bool): seq<Rec<char>> {
    var ns1 := [Rec(2, 'a', false, None, None, None, None)];
    var (b2, l2) := ChainTail(0, []);
    var ns2 := LinkRecords(ns1, l2, if fixed then l2 else b2, 'b', 2);
    var (b3, l3) := ChainTail(0, [1]);
    var ns3 := LinkRecords(ns2, l3, if fixed then l3 else b3, 'c', 2);
    LiftRecords(ns3, 0, None).0
  }

  /** As written: after the dequeue the queue holds "b" then "c" under the
      promoted node 1, but "c"'s parent is still node 0, the released node
      of "a"; the chain's parent links are no longer live, so a later walk
      up from "c" would read a deleted node. */
  lemma ParentLag()
    ensures Fits(Replay(false), Cell(1, [2], Nil, Nil))
    ensures Abs(Replay(false), Cell(1, [2], Nil, Nil)) == Node(2, 'b', ['c'], Leaf, Leaf)
    ensures Replay(false)[2].parent == Some(0) && 0 !in Ids(Cell(1, [2], Nil, Nil))
    ensures !Live(Replay(false), Cell(1, [2], Nil, Nil))
  {
    var ns := Replay(false);
    var s := Cell(1, [2], Nil, Nil);
    assert ns[1] == Rec(2, 'b', true, None, Some(2), None, None);
    assert ns[2] == Rec(2, 'c', true, Some(0), None, None, None);
    assert ChainRec(ns, 1, [2], 0);
    assert !LiveParent(ns, 1, [2], 0);
  }

  /** Corrected: with the new member's parent set to the chain's last
      member, the same sequence leaves tight, hence live, parent links. */
  lemma ParentLagFixed()
    ensures Fits(Replay(true), Cell(1, [2], Nil, Nil))
    ensures Abs(Replay(true), Cell(1, [2], Nil, Nil)) == Node(2, 'b', ['c'], Leaf, Leaf)
    ensures Replay(true)[2].parent == Some(1)
    ensures Tight(Replay(true), Cell(1, [2], Nil, Nil)) && Live(Replay(true), Cell(1, [2], Nil, Nil))
  {
    var ns := Replay(true);
    var s := Cell(1, [2], Nil, Nil);
    assert ns[1] == Rec(2, 'b', true, None, Some(2), None, None);
    assert ns[2] == Rec(2, 'c', true, Some(1), None, None, None);
    assert ChainRec(ns, 1, [2], 0);
    TightLive(ns, s);
  }
}
