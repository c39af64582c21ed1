/** The pointer structure of the queue, as an arena: node records live in a
    sequence and every pointer (parent, link, left, right) is an index into
    it. A ghost `Shape` says which indices form the tree and which form each
    duplicate chain; `Abs` reads the functional tree back out of the arena. */
module Arena {
  import opened Listing
  import opened Bst

  datatype Option<X> = None | Some(value: X)

  /** One NODE: priority, value, the duplicate flag and the four pointers. */
  datatype Rec<T> = Rec(prio: int, value: T, dup: bool, parent: Option<nat>,
                        link: Option<nat>, left: Option<nat>, right: Option<nat>)

  /** The queue object: the node store, `root`, `sz` and the cursor `curr`.
      Released nodes stay in the store, unreachable. */
  datatype Heap<T> = Heap(nodes: seq<Rec<T>>, root: Option<nat>, sz: int, curr: Option<nat>)

  /** Which indices form the tree: a tree node's index, the indices of the
      chain behind it (oldest first), and its two subtrees. */
  datatype Shape = Nil | Cell(id: nat, chain: seq<nat>, left: Shape, right: Shape)

  function Id(s: Shape): Option<nat> {
    if s.Nil? then None else Some(s.id)
  }

  /** The `link` a chain position must carry: position 0 is the tree node,
      position j + 1 is `chain[j]`. */
  function LinkAt(ch: seq<nat>, j: nat): Option<nat> {
    if j < |ch| then Some(ch[j]) else None
  }

  /** Chain member `j` of tree node `i`: same priority, no children, linked
      to the next member, marked as a duplicate. */
  ghost predicate ChainRec<T>(ns: seq<Rec<T>>, i: nat, ch: seq<nat>, j: nat)
    requires i < |ns| && j < |ch|
  {
    var x := ch[j];
    && x < |ns|
    && ns[x].prio == ns[i].prio
    && ns[x].left == None && ns[x].right == None
    && ns[x].link == LinkAt(ch, j + 1)
    && ns[x].dup
  }

  /** The records at the indices of `s` are linked exactly as `s` says: the
      children's `parent` points back, the chain hangs off `link`, and a
      tree node with a chain is marked as a duplicate. */
  ghost predicate Fits<T>(ns: seq<Rec<T>>, s: Shape) {
    match s
    case Nil => true
    case Cell(i, ch, l, r) =>
      && Fits(ns, l) && Fits(ns, r)
      && i < |ns|
      && ns[i].left == Id(l) && ns[i].right == Id(r)
      && (l.Cell? ==> ns[l.id].parent == Some(i))
      && (r.Cell? ==> ns[r.id].parent == Some(i))
      && ns[i].link == LinkAt(ch, 0)
      && (|ch| > 0 ==> ns[i].dup)
      && (forall x :: x in ch ==> x < |ns| && ns[x].prio == ns[i].prio)
      && (forall j :: 0 <= j < |ch| ==> ChainRec(ns, i, ch, j))
  }

  /** Every chain member's `parent` points at a live earlier member of its
      own chain (the tree node or a member before it), so the climb in
      `next` reaches the tree node through equal priorities. */
  ghost predicate Live<T>(ns: seq<Rec<T>>, s: Shape) {
    match s
    case Nil => true
    case Cell(i, ch, l, r) =>
      && Live(ns, l) && Live(ns, r)
      && (forall j :: 0 <= j < |ch| && ch[j] < |ns| ==> LiveParent(ns, i, ch, j))
  }

  ghost predicate LiveParent<T>(ns: seq<Rec<T>>, i: nat, ch: seq<nat>, j: nat)
    requires j < |ch| && ch[j] < |ns|
  {
    ns[ch[j]].parent == Some(i)
    || exists j' :: 0 <= j' < j && ns[ch[j]].parent == Some(ch[j'])
  }

  /** Every chain member's `parent` points at the member just before it
      (the tree node for the first): the links a corrected enqueue leaves. */
  ghost predicate Tight<T>(ns: seq<Rec<T>>, s: Shape) {
    match s
    case Nil => true
    case Cell(i, ch, l, r) =>
      && Tight(ns, l) && Tight(ns, r)
      && (|ch| > 0 && ch[0] < |ns| ==> ns[ch[0]].parent == Some(i))
      && (forall j :: 0 < j < |ch| && ch[j] < |ns| ==> ns[ch[j]].parent == Some(ch[j - 1]))
  }

  /** Tight parent links are live ones. */
  lemma {:induction false} TightLive<T>(ns: seq<Rec<T>>, s: Shape)
    requires Tight(ns, s)
    ensures Live(ns, s)
  {
    match s
    case Nil =>
    case Cell(i, ch, l, r) =>
      TightLive(ns, l);
      TightLive(ns, r);
      forall j | 0 <= j < |ch| && ch[j] < |ns|
        ensures LiveParent(ns, i, ch, j)
      {
        if j > 0 {
          assert 0 <= j - 1 < j && ns[ch[j]].parent == Some(ch[j - 1]);
        }
      }
  }

  /** The values of a chain, oldest first. */
  function ChainValues<T>(ns: seq<Rec<T>>, ch: seq<nat>): (r: seq<T>)
    requires forall x :: x in ch ==> x < |ns|
    ensures |r| == |ch|
    ensures forall j :: 0 <= j < |ch| ==> ch[j] in ch && r[j] == ns[ch[j]].value
  {
    if |ch| == 0 then []
    else
      assert ch[0] in ch && forall x :: x in ch[1..] ==> x in ch;
      [ns[ch[0]].value] + ChainValues(ns, ch[1..])
  }

  /** The functional tree the arena holds. */
  ghost function Abs<T>(ns: seq<Rec<T>>, s: Shape): Tree<T>
    requires Fits(ns, s)
  {
    match s
    case Nil => Leaf
    case Cell(i, ch, l, r) =>
      Node(ns[i].prio, ns[i].value, ChainValues(ns, ch), Abs(ns, l), Abs(ns, r))
  }

  /** The indices in listing order: left subtree, the tree node, its chain,
      right subtree. */
  function Order(s: Shape): seq<nat> {
    match s
    case Nil => []
    case Cell(i, ch, l, r) => Order(l) + [i] + ch + Order(r)
  }

  /** The entries stored at a sequence of indices. */
  function EntriesAt<T>(ns: seq<Rec<T>>, ids: seq<nat>): (r: seq<Entry<T>>)
    requires forall x :: x in ids ==> x < |ns|
    ensures |r| == |ids|
    ensures forall j :: 0 <= j < |ids| ==> ids[j] in ids && r[j] == Entry(ns[ids[j]].prio, ns[ids[j]].value)
  {
    if |ids| == 0 then []
    else
      assert ids[0] in ids && forall x :: x in ids[1..] ==> x in ids;
      [Entry(ns[ids[0]].prio, ns[ids[0]].value)] + EntriesAt(ns, ids[1..])
  }

  /** Every index of a fitting shape is inside the store. */
  lemma {:induction false} OrderInRange<T>(ns: seq<Rec<T>>, s: Shape)
    requires Fits(ns, s)
    ensures forall x :: x in Order(s) ==> x < |ns|
  {
    match s
    case Nil =>
    case Cell(i, ch, l, r) =>
      OrderInRange(ns, l);
      OrderInRange(ns, r);
  }

  lemma {:induction false} EntriesAtConcat<T>(ns: seq<Rec<T>>, a: seq<nat>, b: seq<nat>)
    requires forall x :: x in a ==> x < |ns|
    requires forall x :: x in b ==> x < |ns|
    ensures EntriesAt(ns, a + b) == EntriesAt(ns, a) + EntriesAt(ns, b)
  {
    if |a| == 0 {
      assert a + b == b;
    } else {
      ConcatTail(a, b);
      assert a[0] in a && forall x :: x in a[1..] ==> x in a;
      EntriesAtConcat(ns, a[1..], b);
      ConsTail(Entry(ns[a[0]].prio, ns[a[0]].value), EntriesAt(ns, a[1..]), EntriesAt(ns, b));
    }
  }

  /** The entries of a chain whose members all carry priority `p`. */
  lemma {:induction false} EntriesAtChain<T>(ns: seq<Rec<T>>, p: int, ch: seq<nat>)
    requires forall x :: x in ch ==> x < |ns| && ns[x].prio == p
    ensures EntriesAt(ns, ch) == Chain(p, ChainValues(ns, ch))
  {
    if |ch| > 0 {
      assert ch[0] in ch;
      assert forall x :: x in ch[1..] ==> x in ch;
      EntriesAtChain(ns, p, ch[1..]);
    }
  }

  /** The listing of the tree the arena holds is the entries at the indices
      in listing order. */
  lemma {:induction false} ElemsAbs<T>(ns: seq<Rec<T>>, s: Shape)
    requires Fits(ns, s)
    ensures forall x :: x in Order(s) ==> x < |ns|
    ensures Elems(Abs(ns, s)) == EntriesAt(ns, Order(s))
  {
    OrderInRange(ns, s);
    match s
    case Nil =>
    case Cell(i, ch, l, r) =>
      ElemsAbs(ns, l);
      ElemsAbs(ns, r);
      OrderInRange(ns, l);
      OrderInRange(ns, r);
      EntriesAtChain(ns, ns[i].prio, ch);
      ElemsAbsNode(ns, i, ch, Order(l), Order(r), Elems(Abs(ns, l)), Elems(Abs(ns, r)));
  }

  lemma ElemsAbsNode<T>(ns: seq<Rec<T>>, i: nat, ch: seq<nat>, ol: seq<nat>, or: seq<nat>,
                        el: seq<Entry<T>>, er: seq<Entry<T>>)
    requires i < |ns|
    requires forall x :: x in ol ==> x < |ns|
    requires forall x :: x in or ==> x < |ns|
    requires forall x :: x in ch ==> x < |ns|
    requires el == EntriesAt(ns, ol) && er == EntriesAt(ns, or)
    requires EntriesAt(ns, ch) == Chain(ns[i].prio, ChainValues(ns, ch))
    ensures el + Chain(ns[i].prio, [ns[i].value] + ChainValues(ns, ch)) + er
              == EntriesAt(ns, ol + [i] + ch + or)
  {
    var e := Entry(ns[i].prio, ns[i].value);
    ChainCons(ns[i].prio, ns[i].value, ChainValues(ns, ch));
    EntriesAtConcat(ns, ol, [i]);
    EntriesAtConcat(ns, ol + [i], ch);
    EntriesAtConcat(ns, ol + [i] + ch, or);
    assert EntriesAt(ns, [i]) == [e];
    Assoc(el, [e], EntriesAt(ns, ch));
  }

  // ---------------------------------------------------------------------
  // paths from the root
  // ---------------------------------------------------------------------

  function Child(s: Shape, right: bool): Shape
    requires s.Cell?
  {
    if right then s.right else s.left
  }

  /** The subtree reached by following `d` (true = right) from `s`. */
  function Sub(s: Shape, d: seq<bool>): Shape {
    if |d| == 0 || s.Nil? then s else Sub(Child(s, d[0]), d[1..])
  }

  /** Where the listing of `Sub(s, d)` starts inside the listing of `s`. */
  function Start(s: Shape, d: seq<bool>): nat {
    if |d| == 0 || s.Nil? then 0
    else (if d[0] then |Order(s.left)| + 1 + |s.chain| else 0) + Start(Child(s, d[0]), d[1..])
  }

  /** One more step down a path. */
  lemma {:induction false} SubSnoc(s: Shape, d: seq<bool>, b: bool)
    ensures Sub(s, d).Nil? ==> Sub(s, d + [b]).Nil?
    ensures Sub(s, d).Cell? ==> Sub(s, d + [b]) == Child(Sub(s, d), b)
    ensures Sub(s, d).Cell? ==>
              Start(s, d + [b]) == Start(s, d) + (if b then |Order(Sub(s, d).left)| + 1 + |Sub(s, d).chain| else 0)
  {
    if |d| > 0 && s.Cell? {
      assert (d + [b])[1..] == d[1..] + [b];
      SubSnoc(Child(s, d[0]), d[1..], b);
    }
  }

  /** A subtree's listing sits inside the whole listing at its start. */
  lemma {:induction false} SubOrder(s: Shape, d: seq<bool>)
    ensures Start(s, d) + |Order(Sub(s, d))| <= |Order(s)|
    ensures Order(s)[Start(s, d)..Start(s, d) + |Order(Sub(s, d))|] == Order(Sub(s, d))
  {
    if |d| > 0 && s.Cell? {
      var c := Child(s, d[0]);
      SubOrder(c, d[1..]);
      var st, o := Start(c, d[1..]), Order(Sub(c, d[1..]));
      assert Sub(s, d) == Sub(c, d[1..]);
      if d[0] {
        assert Start(s, d) == |Order(s.left)| + 1 + |s.chain| + st;
        SubOrderRight(s, st, o);
      } else {
        assert Start(s, d) == st;
        SubOrderLeft(s, st, o);
      }
    } else {
      assert Sub(s, d) == s && Start(s, d) == 0;
      assert Order(s)[0..|Order(s)|] == Order(s);
    }
  }

  lemma SubOrderLeft(s: Shape, st: nat, o: seq<nat>)
    requires s.Cell?
    requires st + |o| <= |Order(s.left)| && Order(s.left)[st..st + |o|] == o
    ensures st + |o| <= |Order(s)| && Order(s)[st..st + |o|] == o
  {
    var B := [s.id] + s.chain + Order(s.right);
    assert Order(s) == Order(s.left) + B;
    SliceLeft(Order(s.left), B, st, |o|);
  }

  lemma SubOrderRight(s: Shape, st: nat, o: seq<nat>)
    requires s.Cell?
    requires st + |o| <= |Order(s.right)| && Order(s.right)[st..st + |o|] == o
    ensures var st' := |Order(s.left)| + 1 + |s.chain| + st;
            st' + |o| <= |Order(s)| && Order(s)[st'..st' + |o|] == o
  {
    var A := Order(s.left) + [s.id] + s.chain;
    assert Order(s) == A + Order(s.right);
    assert |A| == |Order(s.left)| + 1 + |s.chain|;
    SliceRight(A, Order(s.right), st, |o|);
  }

  lemma SliceLeft<X>(a: seq<X>, b: seq<X>, st: nat, n: nat)
    requires st + n <= |a|
    ensures (a + b)[st..st + n] == a[st..st + n]
  {
  }

  lemma SliceRight<X>(a: seq<X>, b: seq<X>, st: nat, n: nat)
    requires st + n <= |b|
    ensures (a + b)[|a| + st..|a| + st + n] == b[st..st + n]
  {
  }

  lemma {:induction false} FitsSub<T>(ns: seq<Rec<T>>, s: Shape, d: seq<bool>)
    requires Fits(ns, s)
    ensures Fits(ns, Sub(s, d))
  {
    if |d| > 0 && s.Cell? {
      FitsSub(ns, Child(s, d[0]), d[1..]);
    }
  }

  lemma {:induction false} OrderedSub<T>(ns: seq<Rec<T>>, s: Shape, d: seq<bool>)
    requires Fits(ns, s) && Ordered(Abs(ns, s))
    ensures Fits(ns, Sub(s, d)) && Ordered(Abs(ns, Sub(s, d)))
  {
    if |d| > 0 && s.Cell? {
      OrderedSub(ns, Child(s, d[0]), d[1..]);
    }
  }

  /** Every listing position belongs to one tree node: the node on path
      `d`, at chain position `c` (0 for the tree node itself). */
  lemma {:induction false} Locate(s: Shape, k: nat) returns (d: seq<bool>, c: nat)
    requires k < |Order(s)|
    ensures Sub(s, d).Cell? && c <= |Sub(s, d).chain|
    ensures k == Start(s, d) + |Order(Sub(s, d).left)| + c
    ensures Order(s)[k] == if c == 0 then Sub(s, d).id else Sub(s, d).chain[c - 1]
  {
    var Cell(i, ch, l, r) := s;
    var nl := |Order(l)|;
    if k < nl {
      var d', c' := Locate(l, k);
      d, c := [false] + d', c';
      assert d[1..] == d';
    } else if k <= nl + |ch| {
      d, c := [], k - nl;
    } else {
      var d', c' := Locate(r, k - nl - 1 - |ch|);
      d, c := [true] + d', c';
      assert d[1..] == d';
    }
  }

  /** Position `x` of a subtree's listing, read off the whole listing. */
  lemma SubAt(s: Shape, d: seq<bool>, x: nat)
    requires x < |Order(Sub(s, d))|
    ensures Start(s, d) + x < |Order(s)| && Order(s)[Start(s, d) + x] == Order(Sub(s, d))[x]
  {
    SubOrder(s, d);
  }

  /** Inside a node's own listing, the tree node follows its left subtree
      and its chain follows the tree node. */
  lemma NodeAt(s: Shape, c: nat)
    requires s.Cell? && c <= |s.chain|
    ensures |Order(s.left)| + c < |Order(s)|
    ensures Order(s)[|Order(s.left)| + c] == if c == 0 then s.id else s.chain[c - 1]
  {
    var a := Order(s.left);
    var A := a + [s.id] + s.chain;
    assert Order(s) == A + Order(s.right);
    assert Order(s)[|a| + c] == A[|a| + c];
    if c == 0 {
      assert A[|a|] == (a + [s.id])[|a|];
    } else {
      assert A[|a| + c] == s.chain[c - 1];
    }
  }

  lemma {:induction false} LiveSub<T>(ns: seq<Rec<T>>, s: Shape, d: seq<bool>)
    requires Live(ns, s)
    ensures Live(ns, Sub(s, d))
  {
    if |d| > 0 && s.Cell? {
      LiveSub(ns, Child(s, d[0]), d[1..]);
    }
  }

  /** The node on path `e` hangs below the node on the path one shorter:
      its `parent` points there, its priority is below the parent's when it
      is a left child and above it when it is a right child, and its
      listing starts where the parent's part of the listing says. */
  lemma ParentStep<T>(ns: seq<Rec<T>>, s: Shape, e: seq<bool>)
    requires Fits(ns, s) && Ordered(Abs(ns, s))
    requires |e| > 0 && Sub(s, e).Cell?
    ensures var g := e[..|e| - 1];
            && Sub(s, g).Cell? && Sub(s, e) == Child(Sub(s, g), e[|e| - 1])
            && Sub(s, g).id < |ns| && Sub(s, e).id < |ns|
            && ns[Sub(s, e).id].parent == Some(Sub(s, g).id)
            && (e[|e| - 1] ==> ns[Sub(s, g).id].prio < ns[Sub(s, e).id].prio)
            && (!e[|e| - 1] ==> ns[Sub(s, e).id].prio < ns[Sub(s, g).id].prio)
            && Start(s, e) == Start(s, g) + (if e[|e| - 1] then |Order(Sub(s, g).left)| + 1 + |Sub(s, g).chain| else 0)
  {
    var g, b := e[..|e| - 1], e[|e| - 1];
    assert g + [b] == e;
    SubSnoc(s, g, b);
    OrderedSub(ns, s, g);
    var G := Sub(s, g);
    var C := Child(G, b);
    assert Abs(ns, C).prio in Keys(Abs(ns, C));
  }

  function Members(ch: seq<nat>): set<nat> {
    set x | x in ch
  }

  /** Every index the shape uses. */
  function Ids(s: Shape): set<nat> {
    match s
    case Nil => {}
    case Cell(i, ch, l, r) => Ids(l) + ({i} + Members(ch)) + Ids(r)
  }

  predicate NoDup(o: seq<nat>) {
    forall a, b :: 0 <= a < b < |o| ==> o[a] != o[b]
  }

  /** No index is used twice. */
  predicate Distinct(s: Shape) {
    match s
    case Nil => true
    case Cell(i, ch, l, r) =>
      && Distinct(l) && Distinct(r)
      && NoDup([i] + ch)
      && Ids(l) !! Ids(r)
      && ({i} + Members(ch)) !! Ids(l)
      && ({i} + Members(ch)) !! Ids(r)
  }

  /** The arena holds the ordered tree `s` describes: the root has no
      parent, no index is used twice, and `sz` counts the entries. */
  ghost predicate Holds<T>(h: Heap<T>, s: Shape) {
    && Fits(h.nodes, s)
    && h.root == Id(s)
    && (s.Cell? ==> h.nodes[s.id].parent == None)
    && Ordered(Abs(h.nodes, s))
    && h.sz == |Elems(Abs(h.nodes, s))|
    && Distinct(s)
  }
}
