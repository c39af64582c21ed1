/** The binary search tree behind the priority queue. Each distinct priority
    owns exactly one tree node; later entries with the same priority hang off
    that node in a first-in first-out duplicate chain. */
module Bst {
  import opened Listing

  /** A tree node holds its own value and, in `link`, the values of the
      duplicate chain that follows it, oldest first. */
  datatype Tree<T> =
    | Leaf
    | Node(prio: int, value: T, link: seq<T>, left: Tree<T>, right: Tree<T>)

  /** The priorities of the tree nodes (chain members add none). */
  function Keys<T>(t: Tree<T>): set<int> {
    match t
    case Leaf => {}
    case Node(p, _, _, l, r) => Keys(l) + {p} + Keys(r)
  }

  /** Strict search-tree order over tree nodes, so priorities are distinct. */
  predicate Ordered<T>(t: Tree<T>) {
    match t
    case Leaf => true
    case Node(p, _, _, l, r) =>
      && (forall k :: k in Keys(l) ==> k < p)
      && (forall k :: k in Keys(r) ==> p < k)
      && Ordered(l) && Ordered(r)
  }

  /** The in-order listing: left subtree, the node and its chain in arrival
      order, right subtree. */
  function Elems<T>(t: Tree<T>): seq<Entry<T>> {
    match t
    case Leaf => []
    case Node(p, v, link, l, r) => Elems(l) + Chain(p, [v] + link) + Elems(r)
  }

  /** The number of tree nodes. */
  function Count<T>(t: Tree<T>): nat {
    match t
    case Leaf => 0
    case Node(_, _, _, l, r) => 1 + Count(l) + Count(r)
  }

  lemma {:induction false} ElemsInKeys<T>(t: Tree<T>)
    ensures forall e :: e in Elems(t) ==> e.prio in Keys(t)
  {
    match t
    case Leaf =>
    case Node(p, v, link, l, r) =>
      ElemsInKeys(l);
      ElemsInKeys(r);
  }

  /** The listing of an ordered tree is sorted by priority. */
  lemma {:induction false} ElemsSorted<T>(t: Tree<T>)
    requires Ordered(t)
    ensures Sorted(Elems(t))
  {
    match t
    case Leaf =>
    case Node(p, v, link, l, r) =>
      ElemsSorted(l);
      ElemsSorted(r);
      ElemsInKeys(l);
      ElemsInKeys(r);
      var c := Chain(p, [v] + link);
      SortedConcat(Elems(l), c);
      SortedConcat(Elems(l) + c, Elems(r));
  }

  /** Priorities that own no tree node hold no entries. */
  lemma ValuesAtOutsideKeys<T>(t: Tree<T>, p: int)
    requires p !in Keys(t)
    ensures ValuesAt(Elems(t), p) == []
  {
    ElemsInKeys(t);
    ValuesAtAbsent(Elems(t), p);
  }

  // ---------------------------------------------------------------------
  // enqueue: descent, or append to the tail of an equal priority's chain
  // ---------------------------------------------------------------------

  /** Descend by priority; an equal priority goes to the tail of that node's
      chain and never to a child, a new priority becomes a new leaf node. */
  function Insert<T>(t: Tree<T>, v: T, p: int): (r: Tree<T>)
    ensures Keys(r) == Keys(t) + {p}
    ensures Ordered(t) ==> Ordered(r)
  {
    match t
    case Leaf => Node(p, v, [], Leaf, Leaf)
    case Node(q, w, link, l, rt) =>
      if p == q then Node(q, w, link + [v], l, rt)
      else if p < q then Node(q, w, link, Insert(l, v, p), rt)
      else Node(q, w, link, l, Insert(rt, v, p))
  }

  /** A priority that already owns a tree node adds no node: the entry joins
      that node's chain. A new priority adds exactly one node. */
  lemma {:induction false} InsertCount<T>(t: Tree<T>, v: T, p: int)
    requires Ordered(t)
    ensures Count(Insert(t, v, p)) == Count(t) + (if p in Keys(t) then 0 else 1)
  {
    match t
    case Leaf =>
    case Node(q, w, link, l, rt) =>
      if p < q {
        InsertCount(l, v, p);
        assert p !in Keys(rt);
      } else if q < p {
        InsertCount(rt, v, p);
        assert p !in Keys(l);
      }
  }

  /** Enqueue places the new entry right after the last entry whose priority
      is at most its own. */
  lemma {:induction false} InsertElems<T>(t: Tree<T>, v: T, p: int)
    requires Ordered(t)
    ensures Elems(Insert(t, v, p)) == InsertAfterLE(Elems(t), p, v)
  {
    match t
    case Leaf =>
    case Node(q, w, link, l, rt) =>
      if p == q {
        ElemsInKeys(l);
        ElemsInKeys(rt);
        InsertHere(t, v, p);
      } else if p < q {
        InsertElems(l, v, p);
        ElemsInKeys(rt);
        InsertLeft(t, v, p);
      } else {
        InsertElems(rt, v, p);
        ElemsInKeys(l);
        InsertRight(t, v, p);
      }
  }

  lemma InsertHere<T>(t: Tree<T>, v: T, p: int)
    requires t.Node? && p == t.prio
    requires forall x :: x in Elems(t.left) ==> x.prio <= p
    requires forall x :: x in Elems(t.right) ==> p < x.prio
    ensures Elems(Insert(t, v, p)) == InsertAfterLE(Elems(t), p, v)
  {
    var Node(q, w, link, l, rt) := t;
    var el, c, er := Elems(l), Chain(q, [w] + link), Elems(rt);
    var e := Entry(p, v);
    InsertAfterLEBetween(el + c, er, p, v);
    ChainSnoc(q, [w] + link, v);
    assert [w] + (link + [v]) == [w] + link + [v];
  }

  lemma InsertLeft<T>(t: Tree<T>, v: T, p: int)
    requires t.Node? && p < t.prio
    requires forall x :: x in Elems(t.right) ==> p < x.prio
    requires Elems(Insert(t.left, v, p)) == InsertAfterLE(Elems(t.left), p, v)
    ensures Elems(Insert(t, v, p)) == InsertAfterLE(Elems(t), p, v)
  {
    var Node(q, w, link, l, rt) := t;
    var el, c, er := Elems(l), Chain(q, [w] + link), Elems(rt);
    assert forall x: Entry<T> :: x in c + er ==> p < x.prio;
    InsertAfterLEAbove(el, c + er, p, v);
    Assoc(el, c, er);
    Assoc(InsertAfterLE(el, p, v), c, er);
  }

  lemma InsertRight<T>(t: Tree<T>, v: T, p: int)
    requires t.Node? && t.prio < p
    requires forall x :: x in Elems(t.left) ==> x.prio <= p
    requires Elems(Insert(t.right, v, p)) == InsertAfterLE(Elems(t.right), p, v)
    ensures Elems(Insert(t, v, p)) == InsertAfterLE(Elems(t), p, v)
  {
    var Node(q, w, link, l, rt) := t;
    var el, c, er := Elems(l), Chain(q, [w] + link), Elems(rt);
    assert forall x: Entry<T> :: x in el + c ==> x.prio <= p;
    InsertAfterLEBelow(el + c, er, p, v);
  }

  // ---------------------------------------------------------------------
  // dequeue and peek: the leftmost node
  // ---------------------------------------------------------------------

  /** Remove the leftmost node's own entry: its chain successor takes its
      place (and its right subtree), or else its right subtree does. */
  function RemoveMin<T>(t: Tree<T>): (r: (Tree<T>, T))
    requires t.Node?
    ensures Keys(r.0) <= Keys(t)
    ensures Ordered(t) ==> Ordered(r.0)
  {
    var Node(q, w, link, l, rt) := t;
    if l.Leaf? then
      if |link| > 0 then (Node(q, link[0], link[1..], Leaf, rt), w) else (rt, w)
    else
      var (l', v) := RemoveMin(l);
      (Node(q, w, link, l', rt), v)
  }

  /** The removed value is the first entry of the listing, and the rest of
      the listing is left exactly as it was. */
  lemma {:induction false} RemoveMinElems<T>(t: Tree<T>)
    requires t.Node?
    ensures |Elems(t)| > 0
    ensures RemoveMin(t).1 == Elems(t)[0].value
    ensures Elems(RemoveMin(t).0) == Elems(t)[1..]
  {
    RemoveMinCons(t);
    var e := Entry(First(t).prio, RemoveMin(t).1);
    assert ([e] + Elems(RemoveMin(t).0))[1..] == Elems(RemoveMin(t).0);
  }

  /** The listing is the removed entry followed by the remaining listing. */
  lemma {:induction false} RemoveMinCons<T>(t: Tree<T>)
    requires t.Node?
    ensures Elems(t) == [Entry(First(t).prio, RemoveMin(t).1)] + Elems(RemoveMin(t).0)
  {
    if t.left.Leaf? {
      RemoveMinHere(t);
    } else {
      RemoveMinCons(t.left);
      RemoveMinDeeper(t);
    }
  }

  /** `RemoveMinCons` where the root is the leftmost node. */
  lemma RemoveMinHere<T>(t: Tree<T>)
    requires t.Node? && t.left.Leaf?
    ensures Elems(t) == [Entry(t.prio, RemoveMin(t).1)] + Elems(RemoveMin(t).0)
  {
    var Node(q, w, link, l, rt) := t;
    assert Elems(t) == [] + Chain(q, [w] + link) + Elems(rt);
    ChainCons(q, w, link);
    EmptyCons(Entry(q, w), Chain(q, link), Elems(rt));
    RemainderHere(t);
  }

  /** What is left when the root is the leftmost node: its chain without
      the head, then its right subtree. */
  lemma RemainderHere<T>(t: Tree<T>)
    requires t.Node? && t.left.Leaf?
    ensures RemoveMin(t).1 == t.value
    ensures Elems(RemoveMin(t).0) == Chain(t.prio, t.link) + Elems(t.right)
  {
    var Node(q, w, link, l, rt) := t;
    if |link| > 0 {
      HeadTail(link);
      assert Elems(RemoveMin(t).0) == [] + Chain(q, [link[0]] + link[1..]) + Elems(rt);
      EmptyConcat(Chain(q, link), Elems(rt));
    } else {
      assert Chain(q, link) == [];
      EmptyConcat(Chain(q, link), Elems(rt));
    }
  }

  lemma EmptyCons<X>(x: X, a: seq<X>, b: seq<X>)
    ensures [] + ([x] + a) + b == [x] + (a + b)
  {
  }

  lemma EmptyConcat<X>(a: seq<X>, b: seq<X>)
    ensures [] + a + b == a + b
    ensures [] + b == b
  {
  }

  /** `RemoveMinCons` one level above the leftmost node. */
  lemma RemoveMinDeeper<T>(t: Tree<T>)
    requires t.Node? && t.left.Node?
    requires Elems(t.left) == [Entry(First(t.left).prio, RemoveMin(t.left).1)] + Elems(RemoveMin(t.left).0)
    ensures Elems(t) == [Entry(First(t.left).prio, RemoveMin(t).1)] + Elems(RemoveMin(t).0)
  {
    var el, c, er := Elems(t.left), Chain(t.prio, [t.value] + t.link), Elems(t.right);
    var e := Entry(First(t.left).prio, RemoveMin(t.left).1);
    assert Elems(t) == el + c + er;
    assert RemoveMin(t) == (t.(left := RemoveMin(t.left).0), RemoveMin(t.left).1);
    assert Elems(RemoveMin(t).0) == Elems(RemoveMin(t.left).0) + c + er;
    ConsAssoc(e, Elems(RemoveMin(t.left).0), c, er);
  }

  /** The leftmost tree node: where dequeue and peek look. */
  function First<T>(t: Tree<T>): (r: Tree<T>)
    ensures t.Node? ==> r.Node? && r.left.Leaf?
  {
    match t
    case Leaf => Leaf
    case Node(_, _, _, l, _) => if l.Leaf? then t else First(l)
  }

  /** The leftmost node holds the first entry of the listing, which is the
      entry RemoveMin takes out. */
  lemma {:induction false} FirstIsHead<T>(t: Tree<T>)
    requires t.Node?
    ensures |Elems(t)| > 0
    ensures Elems(t)[0] == Entry(First(t).prio, First(t).value)
    ensures First(t).value == RemoveMin(t).1
  {
    var Node(q, w, link, l, rt) := t;
    if l.Node? {
      FirstIsHead(l);
      assert Elems(t) == Elems(l) + Chain(q, [w] + link) + Elems(rt);
    }
  }

  // ---------------------------------------------------------------------
  // clear: release every node exactly once
  // ---------------------------------------------------------------------

  /** The order in which clearing releases the entries: left subtree, right
      subtree, then the node and its chain from head to tail. */
  function ClearOrder<T>(t: Tree<T>): (r: seq<Entry<T>>)
    ensures multiset(r) == multiset(Elems(t))
  {
    match t
    case Leaf => []
    case Node(p, v, link, l, rt) => ClearOrder(l) + ClearOrder(rt) + Chain(p, [v] + link)
  }

  // ---------------------------------------------------------------------
  // operator==: a simultaneous structural walk
  // ---------------------------------------------------------------------

  /** Compare two duplicate chains node by node: priority and value, the
      (absent) children, then the next link. */
  function SameChain<T(==)>(p1: int, c1: seq<T>, p2: int, c2: seq<T>): (r: bool)
    ensures r <==> c1 == c2 && (|c1| > 0 ==> p1 == p2)
  {
    if |c1| == 0 && |c2| == 0 then true
    else if |c1| == 0 || |c2| == 0 then false
    else p1 == p2 && c1[0] == c2[0] && SameChain(p1, c1[1..], p2, c2[1..])
  }

  /** Compare priority and value, then left, right and chain: true exactly
      when the two trees have the same shape and contents. */
  function SameTree<T(==)>(a: Tree<T>, b: Tree<T>): (r: bool)
    ensures r <==> a == b
  {
    match (a, b)
    case (Leaf, Leaf) => true
    case (Node(p1, v1, c1, l1, r1), Node(p2, v2, c2, l2, r2)) =>
      p1 == p2 && v1 == v2 && SameTree(l1, l2) && SameTree(r1, r2)
      && SameChain(p1, c1, p2, c2)
    case _ => false
  }

  // ---------------------------------------------------------------------
  // operator=: breadth-first walk of the other queue
  // ---------------------------------------------------------------------

  function CountAll<T>(ws: seq<Tree<T>>): nat {
    if |ws| == 0 then 0 else Count(ws[0]) + CountAll(ws[1..])
  }

  lemma {:induction false} CountAllConcat<T>(a: seq<Tree<T>>, b: seq<Tree<T>>)
    ensures CountAll(a + b) == CountAll(a) + CountAll(b)
  {
    if |a| == 0 {
      assert a + b == b;
    } else {
      assert (a + b)[1..] == a[1..] + b;
      CountAllConcat(a[1..], b);
    }
  }

  /** The children a node pushes on the work queue: left then right, each
      only when present. */
  function Kids<T>(t: Tree<T>): (r: seq<Tree<T>>)
    requires t.Node?
    ensures forall i :: 0 <= i < |r| ==> r[i] == t.left || r[i] == t.right
    ensures forall i :: 0 <= i < |r| ==> r[i].Node?
    ensures |r| == 2 ==> r[0] == t.left && r[1] == t.right
  {
    (if t.left.Node? then [t.left] else []) + (if t.right.Node? then [t.right] else [])
  }

  lemma KidsCount<T>(t: Tree<T>)
    requires t.Node?
    ensures CountAll(Kids(t)) + 1 == Count(t)
  {
    var l, r := t.left, t.right;
    assert CountAll([l]) == Count(l) by { assert [l][1..] == []; }
    assert CountAll([r]) == Count(r) by { assert [r][1..] == []; }
    CountAllConcat(if l.Node? then [l] else [], if r.Node? then [r] else []);
  }

  lemma KidsSize<T>(t: Tree<T>)
    requires t.Node?
    ensures ForestSize(Kids(t)) == |Elems(t.left)| + |Elems(t.right)|
  {
    var l, r := t.left, t.right;
    assert ForestSize([l]) == |Elems(l)| by { assert [l][1..] == []; }
    assert ForestSize([r]) == |Elems(r)| by { assert [r][1..] == []; }
    ForestSizeConcat(if l.Node? then [l] else [], if r.Node? then [r] else []);
  }

  /** The entries in the order the breadth-first copy enqueues them: each
      node's own value, then its chain, while its children wait their turn. */
  function Bfs<T>(ws: seq<Tree<T>>): seq<Entry<T>>
    decreases CountAll(ws), |ws|
  {
    if |ws| == 0 then []
    else match ws[0]
      case Leaf => Bfs(ws[1..])
      case Node(p, v, link, _, _) =>
        CountAllConcat(ws[1..], Kids(ws[0]));
        KidsCount(ws[0]);
        Chain(p, [v] + link) + Bfs(ws[1..] + Kids(ws[0]))
  }

  /** The values at priority `p` held by a sequence of trees, tree by tree. */
  function ForestValuesAt<T>(ws: seq<Tree<T>>, p: int): seq<T> {
    if |ws| == 0 then [] else ValuesAt(Elems(ws[0]), p) + ForestValuesAt(ws[1..], p)
  }

  lemma {:induction false} ForestValuesAtConcat<T>(a: seq<Tree<T>>, b: seq<Tree<T>>, p: int)
    ensures ForestValuesAt(a + b, p) == ForestValuesAt(a, p) + ForestValuesAt(b, p)
  {
    if |a| == 0 {
      assert a + b == b;
    } else {
      assert (a + b)[1..] == a[1..] + b;
      ForestValuesAtConcat(a[1..], b, p);
    }
  }

  lemma {:induction false} ForestValuesAtAbsent<T>(ws: seq<Tree<T>>, p: int)
    requires forall i :: 0 <= i < |ws| ==> p !in Keys(ws[i])
    ensures ForestValuesAt(ws, p) == []
  {
    if |ws| > 0 {
      ValuesAtOutsideKeys(ws[0], p);
      ForestValuesAtAbsent(ws[1..], p);
    }
  }

  lemma KidsValuesAt<T>(t: Tree<T>, p: int)
    requires t.Node?
    ensures ForestValuesAt(Kids(t), p) == ValuesAt(Elems(t.left), p) + ValuesAt(Elems(t.right), p)
  {
    var l, r := t.left, t.right;
    assert ForestValuesAt([l], p) == ValuesAt(Elems(l), p) by { assert [l][1..] == []; }
    assert ForestValuesAt([r], p) == ValuesAt(Elems(r), p) by { assert [r][1..] == []; }
    ForestValuesAtConcat(if l.Node? then [l] else [], if r.Node? then [r] else [], p);
  }

  /** A work queue of ordered trees whose priorities are pairwise disjoint. */
  predicate Forest<T>(ws: seq<Tree<T>>) {
    && (forall i :: 0 <= i < |ws| ==> Ordered(ws[i]))
    && (forall i, j :: 0 <= i < j < |ws| ==> Keys(ws[i]) !! Keys(ws[j]))
  }

  lemma ForestTail<T>(ws: seq<Tree<T>>)
    requires Forest(ws) && |ws| > 0
    ensures Forest(ws[1..])
    ensures forall i :: 0 <= i < |ws[1..]| ==> Keys(ws[0]) !! Keys(ws[1..][i])
  {
    forall i | 0 <= i < |ws[1..]| ensures Keys(ws[0]) !! Keys(ws[1..][i]) {
      assert ws[1..][i] == ws[i + 1];
    }
  }

  /** Replacing the head of the work queue by its children keeps the
      queue a forest. */
  lemma ForestStep<T>(ws: seq<Tree<T>>)
    requires Forest(ws) && |ws| > 0 && ws[0].Node?
    ensures Forest(ws[1..] + Kids(ws[0]))
  {
    ForestTail(ws);
    var tail, kids := ws[1..], Kids(ws[0]);
    var rest := tail + kids;
    forall i | 0 <= i < |rest| ensures Ordered(rest[i]) {
      if i < |tail| { assert rest[i] == tail[i]; } else { assert rest[i] == kids[i - |tail|]; }
    }
    forall i, j | 0 <= i < j < |rest| ensures Keys(rest[i]) !! Keys(rest[j]) {
      if j < |tail| {
        assert rest[i] == tail[i] && rest[j] == tail[j];
      } else if i < |tail| {
        assert rest[i] == tail[i] && rest[j] == kids[j - |tail|];
        assert Keys(rest[j]) <= Keys(ws[0]);
        assert Keys(ws[0]) !! Keys(tail[i]);
      } else {
        assert rest[i] == kids[i - |tail|] && rest[j] == kids[j - |tail|];
        assert rest[i] == ws[0].left && rest[j] == ws[0].right;
        var Node(q, _, _, l, r) := ws[0];
        assert Ordered(ws[0]);
        forall k | k in Keys(l) ensures k !in Keys(r) {
          assert k < q;
        }
      }
    }
  }

  /** The reordering of values that the walk performs: at most one of the
      parts is non-empty, so the order of the parts does not matter. */
  lemma Regroup<X>(a: seq<X>, own: seq<X>, b: seq<X>, f: seq<X>)
    requires f == [] || (a == [] && own == [] && b == [])
    requires own == [] || (a == [] && b == [])
    ensures a + own + b + f == own + (f + (a + b))
  {
  }

  /** Over trees with pairwise disjoint priorities, the breadth-first walk
      yields the values of each priority in the order the trees hold them:
      a priority's whole chain is emitted together, head first. */
  lemma {:induction false} BfsValuesAt<T>(ws: seq<Tree<T>>, p: int)
    requires Forest(ws)
    ensures ValuesAt(Bfs(ws), p) == ForestValuesAt(ws, p)
    decreases CountAll(ws), |ws|
  {
    if |ws| > 0 {
      ForestTail(ws);
      if ws[0].Leaf? {
        BfsValuesAt(ws[1..], p);
        BfsLeaf(ws, p);
      } else {
        var rest := ws[1..] + Kids(ws[0]);
        CountAllConcat(ws[1..], Kids(ws[0]));
        KidsCount(ws[0]);
        ForestStep(ws);
        BfsValuesAt(rest, p);
        BfsNode(ws, p);
      }
    }
  }

  /** One step of the walk past an empty tree. */
  lemma BfsLeaf<T>(ws: seq<Tree<T>>, p: int)
    requires |ws| > 0 && ws[0].Leaf?
    requires ValuesAt(Bfs(ws[1..]), p) == ForestValuesAt(ws[1..], p)
    ensures ValuesAt(Bfs(ws), p) == ForestValuesAt(ws, p)
  {
    assert Bfs(ws) == Bfs(ws[1..]);
    assert ValuesAt(Elems(ws[0]), p) == [];
  }

  /** One step of the walk on a node, given the claim for the queue that
      follows it. */
  lemma BfsNode<T>(ws: seq<Tree<T>>, p: int)
    requires Forest(ws) && |ws| > 0 && ws[0].Node?
    requires forall i :: 0 <= i < |ws[1..]| ==> Keys(ws[0]) !! Keys(ws[1..][i])
    requires ValuesAt(Bfs(ws[1..] + Kids(ws[0])), p) == ForestValuesAt(ws[1..] + Kids(ws[0]), p)
    ensures ValuesAt(Bfs(ws), p) == ForestValuesAt(ws, p)
  {
    var Node(q, v, link, l, r) := ws[0];
    var c := Chain(q, [v] + link);
    var rest := ws[1..] + Kids(ws[0]);
    assert Bfs(ws) == c + Bfs(rest);
    ValuesAtConcat(c, Bfs(rest), p);
    ForestValuesAtConcat(ws[1..], Kids(ws[0]), p);
    KidsValuesAt(ws[0], p);
    ValuesAtConcat(Elems(l), c, p);
    ValuesAtConcat(Elems(l) + c, Elems(r), p);
    ValuesAtChain(q, [v] + link, p);
    var own, f := ValuesAt(c, p), ForestValuesAt(ws[1..], p);
    var a, b := ValuesAt(Elems(l), p), ValuesAt(Elems(r), p);
    if p in Keys(ws[0]) {
      ForestValuesAtAbsent(ws[1..], p);
    }
    if p !in Keys(l) { ValuesAtOutsideKeys(l, p); }
    if p !in Keys(r) { ValuesAtOutsideKeys(r, p); }
    Regroup(a, own, b, f);
  }

  /** The number of entries held by a sequence of trees. */
  function ForestSize<T>(ws: seq<Tree<T>>): nat {
    if |ws| == 0 then 0 else |Elems(ws[0])| + ForestSize(ws[1..])
  }

  lemma {:induction false} ForestSizeConcat<T>(a: seq<Tree<T>>, b: seq<Tree<T>>)
    ensures ForestSize(a + b) == ForestSize(a) + ForestSize(b)
  {
    if |a| == 0 {
      assert a + b == b;
    } else {
      assert (a + b)[1..] == a[1..] + b;
      ForestSizeConcat(a[1..], b);
    }
  }

  /** The breadth-first walk emits every entry of the work queue once. */
  lemma {:induction false} BfsSize<T>(ws: seq<Tree<T>>)
    ensures |Bfs(ws)| == ForestSize(ws)
    decreases CountAll(ws), |ws|
  {
    if |ws| > 0 {
      if ws[0].Leaf? {
        BfsSize(ws[1..]);
      } else {
        var kids := Kids(ws[0]);
        CountAllConcat(ws[1..], kids);
        KidsCount(ws[0]);
        BfsSize(ws[1..] + kids);
        ForestSizeConcat(ws[1..], kids);
        KidsSize(ws[0]);
        assert Bfs(ws) == Chain(ws[0].prio, [ws[0].value] + ws[0].link) + Bfs(ws[1..] + kids);
      }
    }
  }
}
