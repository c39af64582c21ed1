/** The public operations of the priority queue over its search tree: the
    queue is the tree plus the element count `sz`. Every operation is stated
    against the in-order listing that `toString` prints. The cursor state
    used by `begin`/`next` lives in the arena model (module Arena). */
module PrQueue {
  import opened Listing
  import opened Bst

  /** The tree and the element count the queue keeps beside it. */
  datatype Queue<T> = Queue(root: Tree<T>, sz: int)

  /** What every operation keeps: strict search-tree order over the tree
      nodes, and a count equal to the number of entries. */
  predicate Valid<T>(q: Queue<T>) {
    Ordered(q.root) && q.sz == |Elems(q.root)|
  }

  /** The default constructor: no root, no entries. */
  function Empty<T>(): (q: Queue<T>)
    ensures Valid(q) && Size(q) == 0 && ToString(q) == []
  {
    Queue(Leaf, 0)
  }

  /** size(): the kept count, which matches the listing. */
  function Size<T>(q: Queue<T>): (n: int)
    ensures Valid(q) ==> n == |ToString(q)|
  {
    q.sz
  }

  /** toString(): one entry per element, as the recursive walk emits them
      (left subtree, the node and its chain, right subtree). */
  function ToString<T>(q: Queue<T>): (r: seq<Entry<T>>)
    ensures r == [] <==> q.root.Leaf?
    ensures Valid(q) ==> Sorted(r) && |r| == q.sz
  {
    ElemsSortedWhenOrdered(q.root);
    Elems(q.root)
  }

  lemma ElemsSortedWhenOrdered<T>(t: Tree<T>)
    ensures Ordered(t) ==> Sorted(Elems(t))
  {
    if Ordered(t) {
      ElemsSorted(t);
    }
  }

  // ---------------------------------------------------------------------
  // enqueue
  // ---------------------------------------------------------------------

  /** enqueue(value, priority). On an empty queue the new node becomes the
      root and the count is set to 1; otherwise it is placed by descent and
      the count goes up by one. */
  function Enqueue<T>(q: Queue<T>, v: T, p: int): (r: Queue<T>)
    ensures Valid(q) ==> Valid(r) && Size(r) == Size(q) + 1
    ensures Valid(q) ==> ToString(r) == InsertAfterLE(ToString(q), p, v)
  {
    EnqueueListing(q.root, v, p);
    if q.root.Leaf? then Queue(Insert(q.root, v, p), 1)
    else Queue(Insert(q.root, v, p), q.sz + 1)
  }

  lemma EnqueueListing<T>(t: Tree<T>, v: T, p: int)
    ensures Ordered(t) ==> Elems(Insert(t, v, p)) == InsertAfterLE(Elems(t), p, v)
  {
    if Ordered(t) {
      InsertElems(t, v, p);
    }
  }

  /** Enqueue appends the value to its priority's values and leaves every
      other priority alone: entries of one priority leave in arrival order. */
  lemma EnqueueValues<T>(q: Queue<T>, v: T, p: int, k: int)
    requires Valid(q)
    ensures ValuesAt(ToString(Enqueue(q, v, p)), k)
              == ValuesAt(ToString(q), k) + (if k == p then [v] else [])
  {
    InsertAfterLEValues(ToString(q), p, v, k);
  }

  /** An equal priority joins the chain of the node that owns it and never
      becomes a child; a new priority adds exactly one tree node. */
  lemma EnqueueTreeNodes<T>(q: Queue<T>, v: T, p: int)
    requires Valid(q)
    ensures Keys(Enqueue(q, v, p).root) == Keys(q.root) + {p}
    ensures Count(Enqueue(q, v, p).root) == Count(q.root) + (if p in Keys(q.root) then 0 else 1)
  {
    InsertCount(q.root, v, p);
  }

  // ---------------------------------------------------------------------
  // dequeue and peek
  // ---------------------------------------------------------------------

  /** dequeue(): on an empty queue, the default value and no change;
      otherwise the leftmost node's value, with that node replaced by its
      chain successor or by its right subtree. */
  function Dequeue<T>(q: Queue<T>, dflt: T): (r: (Queue<T>, T))
    ensures ToString(q) == [] ==> r == (q, dflt)
    ensures Valid(q) ==> Valid(r.0)
    ensures Valid(q) && ToString(q) != [] ==>
              && r.1 == ToString(q)[0].value
              && ToString(r.0) == ToString(q)[1..]
              && Size(r.0) == Size(q) - 1
  {
    if q.root.Leaf? then (q, dflt)
    else
      RemoveMinElems(q.root);
      var (t, v) := RemoveMin(q.root);
      (Queue(t, q.sz - 1), v)
  }

  /** peek(): the leftmost node's value, or the default on an empty queue. */
  function Peek<T>(q: Queue<T>, dflt: T): (v: T)
    ensures v == Dequeue(q, dflt).1
    ensures ToString(q) != [] ==> v == ToString(q)[0].value
  {
    var f := First(q.root);
    if f.Node? then
      FirstIsHead(q.root);
      f.value
    else dflt
  }

  /** `n` dequeues in a row: the values taken, and the queue left. */
  function DequeueN<T>(q: Queue<T>, dflt: T, n: nat): (r: (Queue<T>, seq<T>))
    ensures |r.1| == n
    decreases n
  {
    if n == 0 then (q, [])
    else
      var (q1, v) := Dequeue(q, dflt);
      var (q2, vs) := DequeueN(q1, dflt, n - 1);
      (q2, [v] + vs)
  }

  function Repeat<T>(x: T, n: nat): (r: seq<T>)
    ensures |r| == n && forall i :: 0 <= i < n ==> r[i] == x
  {
    if n == 0 then [] else [x] + Repeat(x, n - 1)
  }

  /** What `n` dequeues from a queue with listing `s` should return: the
      values of the first `n` entries, then the default for each call made
      on the empty queue. */
  function Drained<T>(s: seq<Entry<T>>, dflt: T, n: nat): seq<T> {
    if n <= |s| then Values(s[..n]) else Values(s) + Repeat(dflt, n - |s|)
  }

  /** Draining the queue: `n` dequeues return the listing's values in
      order, then the default once the queue is empty; what is left is the
      rest of the listing. */
  lemma {:induction false} DequeueNDrains<T>(q: Queue<T>, dflt: T, n: nat)
    requires Valid(q)
    ensures Valid(DequeueN(q, dflt, n).0)
    ensures DequeueN(q, dflt, n).1 == Drained(ToString(q), dflt, n)
    ensures ToString(DequeueN(q, dflt, n).0)
              == if n <= |ToString(q)| then ToString(q)[n..] else []
    decreases n
  {
    if n > 0 {
      var q1 := Dequeue(q, dflt).0;
      DequeueNDrains(q1, dflt, n - 1);
      if ToString(q) == [] {
        DrainedEmpty(ToString(q), dflt, n);
      } else {
        DrainedCons(ToString(q), dflt, n);
        TailSlice(ToString(q), n);
      }
    }
  }

  lemma DrainedEmpty<T>(s: seq<Entry<T>>, dflt: T, n: nat)
    requires s == [] && n > 0
    ensures Drained(s, dflt, n) == [dflt] + Drained(s, dflt, n - 1)
  {
  }

  lemma DrainedCons<T>(s: seq<Entry<T>>, dflt: T, n: nat)
    requires |s| > 0 && n > 0
    ensures Drained(s, dflt, n) == [s[0].value] + Drained(s[1..], dflt, n - 1)
  {
    if n <= |s| {
      assert s[..n][1..] == s[1..][..n - 1];
    } else {
      ConsTail(s[0].value, Values(s[1..]), Repeat(dflt, n - |s|));
    }
  }

  lemma TailSlice<X>(s: seq<X>, n: nat)
    requires |s| > 0 && n > 0
    ensures n - 1 <= |s[1..]| ==> s[1..][n - 1..] == s[n..]
  {
  }

  // ---------------------------------------------------------------------
  // clear
  // ---------------------------------------------------------------------

  /** clear(): the queue becomes empty; the entries are released in the
      order of the recursive walk (left, right, then the node and its chain
      head to tail). */
  function Clear<T>(q: Queue<T>): (r: (Queue<T>, seq<Entry<T>>))
    ensures Valid(r.0) && Size(r.0) == 0 && ToString(r.0) == []
    ensures multiset(r.1) == multiset(ToString(q))
  {
    (Queue(Leaf, 0), ClearOrder(q.root))
  }

  // ---------------------------------------------------------------------
  // operator==
  // ---------------------------------------------------------------------

  /** operator==: different counts are unequal; otherwise the two trees are
      walked together, comparing priority and value, then left, right and
      chain. It is true exactly when the counts and the whole shapes agree. */
  function Equal<T(==)>(a: Queue<T>, b: Queue<T>): (r: bool)
    ensures r <==> a.sz == b.sz && a.root == b.root
    ensures r && Valid(a) ==> Valid(b) && ToString(a) == ToString(b)
  {
    if a.sz != b.sz then false else SameTree(a.root, b.root)
  }

  // ---------------------------------------------------------------------
  // building from a sequence of enqueues
  // ---------------------------------------------------------------------

  /** Enqueue each entry in turn. */
  function EnqueueAll<T>(q: Queue<T>, es: seq<Entry<T>>): (r: Queue<T>)
    ensures Valid(q) ==> Valid(r) && Size(r) == Size(q) + |es|
    decreases |es|
  {
    if |es| == 0 then q else EnqueueAll(Enqueue(q, es[0].value, es[0].prio), es[1..])
  }

  /** Each priority's values grow by the values the enqueued entries carry
      for it, in the order given. */
  lemma {:induction false} EnqueueAllValues<T>(q: Queue<T>, es: seq<Entry<T>>, k: int)
    requires Valid(q)
    ensures ValuesAt(ToString(EnqueueAll(q, es)), k) == ValuesAt(ToString(q), k) + ValuesAt(es, k)
    decreases |es|
  {
    if |es| > 0 {
      var q1 := Enqueue(q, es[0].value, es[0].prio);
      EnqueueValues(q, es[0].value, es[0].prio, k);
      EnqueueAllValues(q1, es[1..], k);
    }
  }

  /** The queue a sequence of enqueues builds from the empty queue. */
  function Build<T>(es: seq<Entry<T>>): (r: Queue<T>)
    ensures Valid(r) && Size(r) == |es|
  {
    EnqueueAll(Empty(), es)
  }

  /** The listing of a built queue is the stable sort of the enqueued
      entries by priority: sorted, and each priority's values in arrival
      order. It is the only listing with these two properties. */
  lemma BuildListing<T>(es: seq<Entry<T>>)
    ensures Sorted(ToString(Build(es)))
    ensures SameValues(ToString(Build(es)), es)
    ensures forall s :: Sorted(s) && SameValues(s, es) ==> s == ToString(Build(es))
  {
    forall k ensures ValuesAt(ToString(Build(es)), k) == ValuesAt(es, k) {
      EnqueueAllValues(Empty(), es, k);
    }
    forall s | Sorted(s) && SameValues(s, es) ensures s == ToString(Build(es)) {
      SortedUnique(s, ToString(Build(es)));
    }
  }

  /** Equality is about shape, not contents: the same three entries enqueued
      in two orders give the same listing but different trees. */
  lemma EqualIsStructural()
    ensures var a := Build([Entry(2, 10), Entry(1, 20), Entry(3, 30)]);
            var b := Build([Entry(3, 30), Entry(2, 10), Entry(1, 20)]);
            ToString(a) == ToString(b) && !Equal(a, b)
  {
  }

  // ---------------------------------------------------------------------
  // operator=
  // ---------------------------------------------------------------------

  /** operator=: self-assignment (`same`) and an empty `other` change
      nothing; otherwise the entries of `other` are enqueued into this queue
      in breadth-first order, each node's own value before its chain. This
      queue is not cleared first. */
  function Assign<T>(self: Queue<T>, other: Queue<T>, same: bool): (r: Queue<T>)
    requires same ==> self == other
    ensures same || other.root.Leaf? ==> r == self
    ensures Valid(self) ==> Valid(r)
  {
    if same then self
    else if other.root.Leaf? then self
    else EnqueueAll(self, Bfs([other.root]))
  }

  /** Assignment appends `other`'s values to each priority's values. */
  lemma AssignValues<T>(self: Queue<T>, other: Queue<T>, same: bool, k: int)
    requires same ==> self == other
    requires Valid(self) && Valid(other) && !same
    ensures ValuesAt(ToString(Assign(self, other, same)), k)
              == ValuesAt(ToString(self), k) + ValuesAt(ToString(other), k)
    ensures Size(Assign(self, other, same)) == Size(self) + Size(other)
  {
    if other.root.Node? {
      EnqueueAllValues(self, Bfs([other.root]), k);
      BfsSingle(other.root, k);
      BfsLength(other.root);
    }
  }

  lemma BfsSingle<T>(t: Tree<T>, k: int)
    requires Ordered(t)
    ensures ValuesAt(Bfs([t]), k) == ValuesAt(Elems(t), k)
  {
    BfsValuesAt([t], k);
    assert [t][1..] == [];
  }

  /** The breadth-first walk emits every entry exactly once. */
  lemma BfsLength<T>(t: Tree<T>)
    ensures |Bfs([t])| == |Elems(t)|
  {
    BfsSize([t]);
    assert [t][1..] == [];
  }

  /** Assigning into an empty queue copies `other`: same size, same listing. */
  lemma AssignIntoEmpty<T>(other: Queue<T>)
    requires Valid(other)
    ensures Size(Assign(Empty(), other, false)) == Size(other)
    ensures ToString(Assign(Empty(), other, false)) == ToString(other)
  {
    var r := Assign(Empty(), other, false);
    forall k ensures ValuesAt(ToString(r), k) == ValuesAt(ToString(other), k) {
      AssignValues(Empty(), other, false, k);
    }
    SortedUnique(ToString(r), ToString(other));
  }
}
