/** Replacing one subtree of the arena's shape while every record outside
    it stays as it was: the frame reasoning behind enqueue and dequeue,
    which each change a few records near one tree node. */
module Graft {
  import opened Listing
  import opened Bst
  import opened Arena

  /** Records at indices a chain does not use do not matter to it. */
  lemma {:induction false} FrameChain<T>(ns: seq<Rec<T>>, ns': seq<Rec<T>>, i: nat, ch: seq<nat>)
    requires i < |ns| && i < |ns'| && ns'[i].prio == ns[i].prio
    requires forall x :: x in ch ==> x < |ns| && x < |ns'| && ns'[x] == ns[x]
    ensures forall j :: 0 <= j < |ch| && ChainRec(ns, i, ch, j) ==> ChainRec(ns', i, ch, j)
    ensures ChainValues(ns', ch) == ChainValues(ns, ch)
  {
    if |ch| > 0 {
      assert ch[0] in ch && forall x :: x in ch[1..] ==> x in ch;
      FrameChain(ns, ns', i, ch[1..]);
    }
    forall j | 0 <= j < |ch| && ChainRec(ns, i, ch, j)
      ensures ChainRec(ns', i, ch, j)
    {
      assert ch[j] in ch;
    }
  }

  /** Records at indices a shape does not use do not matter to it. */
  lemma {:induction false} Frame<T>(ns: seq<Rec<T>>, ns': seq<Rec<T>>, t: Shape)
    requires Fits(ns, t)
    requires forall x :: x in Ids(t) ==> x < |ns| && x < |ns'| && ns'[x] == ns[x]
    ensures Fits(ns', t) && Abs(ns', t) == Abs(ns, t)
  {
    match t
    case Nil =>
    case Cell(i, ch, l, r) =>
      Frame(ns, ns', l);
      Frame(ns, ns', r);
      assert i in Ids(t);
      assert forall x :: x in ch ==> x in Members(ch);
      assert l.Cell? ==> l.id in Ids(l);
      assert r.Cell? ==> r.id in Ids(r);
      FrameChain(ns, ns', i, ch);
  }

  lemma {:induction false} FrameLive<T>(ns: seq<Rec<T>>, ns': seq<Rec<T>>, t: Shape)
    requires Live(ns, t)
    requires forall x :: x in Ids(t) ==> x < |ns| && x < |ns'| && ns'[x] == ns[x]
    ensures Live(ns', t)
  {
    match t
    case Nil =>
    case Cell(i, ch, l, r) =>
      assert Ids(t) == Ids(l) + ({i} + Members(ch)) + Ids(r);
      FrameLive(ns, ns', l);
      FrameLive(ns, ns', r);
      forall j | 0 <= j < |ch| && ch[j] < |ns'|
        ensures LiveParent(ns', i, ch, j)
      {
        assert ch[j] in Members(ch);
        assert LiveParent(ns, i, ch, j);
      }
  }

  lemma {:induction false} FrameTight<T>(ns: seq<Rec<T>>, ns': seq<Rec<T>>, t: Shape)
    requires Tight(ns, t)
    requires forall x :: x in Ids(t) ==> x < |ns| && x < |ns'| && ns'[x] == ns[x]
    ensures Tight(ns', t)
  {
    match t
    case Nil =>
    case Cell(i, ch, l, r) =>
      assert Ids(t) == Ids(l) + ({i} + Members(ch)) + Ids(r);
      FrameTight(ns, ns', l);
      FrameTight(ns, ns', r);
      assert forall j :: 0 <= j < |ch| ==> ch[j] in Members(ch);
  }

  // ---------------------------------------------------------------------
  // paths in the functional tree, and replacing a subtree
  // ---------------------------------------------------------------------

  /** The subtree reached by following `e` (true = right). */
  function TSub<T>(t: Tree<T>, e: seq<bool>): Tree<T> {
    if |e| == 0 || t.Leaf? then t
    else TSub(if e[0] then t.right else t.left, e[1..])
  }

  /** `t` with the subtree at the end of `e` replaced by `u`. */
  function TGraft<T>(t: Tree<T>, e: seq<bool>, u: Tree<T>): Tree<T> {
    if |e| == 0 then u
    else if t.Leaf? then t
    else if e[0] then t.(right := TGraft(t.right, e[1..], u))
    else t.(left := TGraft(t.left, e[1..], u))
  }

  /** The same replacement on shapes. */
  function SGraft(s: Shape, e: seq<bool>, u: Shape): Shape {
    if |e| == 0 then u
    else if s.Nil? then s
    else if e[0] then s.(right := SGraft(s.right, e[1..], u))
    else s.(left := SGraft(s.left, e[1..], u))
  }

  /** Following a path in the arena and in the tree it holds agree. */
  lemma {:induction false} AbsSub<T>(ns: seq<Rec<T>>, s: Shape, e: seq<bool>)
    requires Fits(ns, s)
    ensures Fits(ns, Sub(s, e)) && Abs(ns, Sub(s, e)) == TSub(Abs(ns, s), e)
  {
    if |e| > 0 && s.Cell? {
      AbsSub(ns, Child(s, e[0]), e[1..]);
    }
  }

  /** Replacing at one step further down is replacing a child of the
      subtree one step up. */
  lemma {:induction false} TGraftSnoc<T>(t: Tree<T>, e: seq<bool>, b: bool, x: Tree<T>)
    requires TSub(t, e).Node?
    ensures TSub(t, e + [b]) == (if b then TSub(t, e).right else TSub(t, e).left)
    ensures TGraft(t, e + [b], x)
              == TGraft(t, e, if b then TSub(t, e).(right := x) else TSub(t, e).(left := x))
  {
    if |e| > 0 {
      assert (e + [b])[1..] == e[1..] + [b];
      TGraftSnoc(if e[0] then t.right else t.left, e[1..], b, x);
    }
  }

  /** The same on shapes. */
  lemma {:induction false} SGraftSnoc(s: Shape, e: seq<bool>, b: bool, x: Shape)
    requires Sub(s, e).Cell?
    ensures SGraft(s, e + [b], x) == SGraft(s, e, if b then Sub(s, e).(right := x) else Sub(s, e).(left := x))
  {
    if |e| > 0 {
      assert (e + [b])[1..] == e[1..] + [b];
      SGraftSnoc(Child(s, e[0]), e[1..], b, x);
    }
  }

  /** Records that only the root's `parent` distinguishes hold the same
      subtree (the root's `parent` is its own parent's business). */
  lemma FrameRoot<T>(ns: seq<Rec<T>>, ns': seq<Rec<T>>, t: Shape)
    requires Fits(ns, t) && Distinct(t)
    requires t.Cell? ==> t.id < |ns'| && ns'[t.id] == ns[t.id].(parent := ns'[t.id].parent)
    requires forall x :: x in Ids(t) && (t.Nil? || x != t.id) ==> x < |ns| && x < |ns'| && ns'[x] == ns[x]
    ensures Fits(ns', t) && Abs(ns', t) == Abs(ns, t)
    ensures Tight(ns, t) ==> Tight(ns', t)
  {
    if t.Cell? {
      var Cell(i, ch, l, r) := t;
      assert Ids(t) == Ids(l) + ({i} + Members(ch)) + Ids(r);
      NoDupHead(i, ch);
      assert forall x :: x in ch ==> x in Members(ch);
      Frame(ns, ns', l);
      Frame(ns, ns', r);
      assert l.Cell? ==> l.id in Ids(l);
      assert r.Cell? ==> r.id in Ids(r);
      FrameChain(ns, ns', i, ch);
      if Tight(ns, t) {
        FrameTight(ns, ns', l);
        FrameTight(ns, ns', r);
        assert forall j :: 0 <= j < |ch| ==> ch[j] in ch;
      }
    }
  }

  /** The same records keep chain parents live. */
  lemma FrameRootLive<T>(ns: seq<Rec<T>>, ns': seq<Rec<T>>, t: Shape)
    requires Live(ns, t) && Distinct(t)
    requires t.Cell? ==> t.id < |ns| && t.id < |ns'| && ns'[t.id] == ns[t.id].(parent := ns'[t.id].parent)
    requires forall x :: x in Ids(t) && (t.Nil? || x != t.id) ==> x < |ns| && x < |ns'| && ns'[x] == ns[x]
    ensures Live(ns', t)
  {
    if t.Cell? {
      var Cell(i, ch, l, r) := t;
      assert Ids(t) == Ids(l) + ({i} + Members(ch)) + Ids(r);
      NoDupHead(i, ch);
      FrameLive(ns, ns', l);
      FrameLive(ns, ns', r);
      forall j | 0 <= j < |ch| && ch[j] < |ns'|
        ensures LiveParent(ns', i, ch, j)
      {
        assert ch[j] in Members(ch);
        assert LiveParent(ns, i, ch, j);
      }
    }
  }

  lemma NoDupHead(i: nat, ch: seq<nat>)
    requires NoDup([i] + ch)
    ensures i !in ch
  {
    forall j | 0 <= j < |ch|
      ensures ch[j] != i
    {
      assert ([i] + ch)[0] != ([i] + ch)[j + 1];
    }
  }

  /** Replacing a subtree by itself changes nothing. */
  lemma {:induction false} TGraftSame<T>(t: Tree<T>, e: seq<bool>)
    ensures TGraft(t, e, TSub(t, e)) == t
  {
    if |e| > 0 && t.Node? {
      TGraftSame(if e[0] then t.right else t.left, e[1..]);
    }
  }

  lemma {:induction false} SubIds(s: Shape, e: seq<bool>)
    ensures Ids(Sub(s, e)) <= Ids(s)
    ensures |e| > 0 && s.Cell? ==> Ids(Sub(s, e)) <= Ids(Child(s, e[0]))
  {
    if |e| > 0 && s.Cell? {
      SubIds(Child(s, e[0]), e[1..]);
    }
  }

  lemma {:induction false} DistinctSub(s: Shape, e: seq<bool>)
    requires Distinct(s)
    ensures Distinct(Sub(s, e))
  {
    if |e| > 0 && s.Cell? {
      DistinctSub(Child(s, e[0]), e[1..]);
    }
  }

  /** Replacing the subtree at the end of `e` by `u` when only records of
      that subtree changed, and `u` keeps its root index and the root's
      parent: the arena holds the tree with the same replacement. */
  lemma {:induction false} GraftFits<T>(ns: seq<Rec<T>>, ns': seq<Rec<T>>, s: Shape, e: seq<bool>, u: Shape)
    requires Fits(ns, s) && Distinct(s) && Sub(s, e).Cell? && Fits(ns', u)
    requires |e| > 0 ==> u.Cell? && u.id == Sub(s, e).id && u.id < |ns| && ns'[u.id].parent == ns[u.id].parent
    requires forall x :: x in Ids(s) && x !in Ids(Sub(s, e)) ==> x < |ns| && x < |ns'| && ns'[x] == ns[x]
    ensures Fits(ns', SGraft(s, e, u))
    ensures Abs(ns', SGraft(s, e, u)) == TGraft(Abs(ns, s), e, Abs(ns', u))
  {
    if |e| > 0 {
      var c := Child(s, e[0]);
      GraftStep(ns, ns', s, e);
      assert Fits(ns, s.left) && Fits(ns, s.right);
      GraftFits(ns, ns', c, e[1..], u);
      GraftRoot(c, e[1..], u);
      assert c.id in Ids(c);
      ReplaceChild(ns, ns', s, e[0], SGraft(c, e[1..], u));
    }
  }

  /** Replacing a subtree by one with the same root keeps the root. */
  lemma GraftRoot(s: Shape, g: seq<bool>, u: Shape)
    requires Sub(s, g).Cell? && u.Cell? && u.id == Sub(s, g).id
    ensures Id(SGraft(s, g, u)) == Id(s)
  {
    if |g| == 0 {
      assert Sub(s, g) == s;
    }
  }

  /** One step down the replacement path: the records the step leaves
      alone are those of the tree node, its chain, the other child, and the
      part of the chosen child outside the replaced subtree. */
  lemma GraftStep<T>(ns: seq<Rec<T>>, ns': seq<Rec<T>>, s: Shape, e: seq<bool>)
    requires Distinct(s) && s.Cell? && |e| > 0 && Sub(s, e).Cell?
    requires forall x :: x in Ids(s) && x !in Ids(Sub(s, e)) ==> x < |ns| && x < |ns'| && ns'[x] == ns[x]
    ensures Distinct(Child(s, e[0])) && Sub(Child(s, e[0]), e[1..]) == Sub(s, e)
    ensures forall x :: x in Ids(Child(s, e[0])) && x !in Ids(Sub(s, e)) ==> x < |ns| && x < |ns'| && ns'[x] == ns[x]
    ensures forall x :: x in Ids(Other(s, e[0])) ==> x < |ns| && x < |ns'| && ns'[x] == ns[x]
    ensures forall x :: x in s.chain ==> x < |ns| && x < |ns'| && ns'[x] == ns[x]
    ensures s.id < |ns| && s.id < |ns'| && ns'[s.id] == ns[s.id]
    ensures |e| > 1 ==> Child(s, e[0]).Cell? && Child(s, e[0]).id !in Ids(Sub(s, e))
  {
    var Cell(i, ch, l, r) := s;
    var c, o := Child(s, e[0]), Other(s, e[0]);
    SubIds(s, e);
    assert Ids(s) == Ids(l) + ({i} + Members(ch)) + Ids(r);
    var G := Ids(Sub(s, e));
    assert G <= Ids(c) && Ids(c) !! Ids(o) && Ids(c) !! ({i} + Members(ch));
    forall x | x in Ids(c) && x !in G
      ensures x < |ns| && x < |ns'| && ns'[x] == ns[x]
    {
      assert x in Ids(s);
    }
    forall x | x in Ids(o)
      ensures x < |ns| && x < |ns'| && ns'[x] == ns[x]
    {
      assert x in Ids(s) && x !in G;
    }
    forall x | x in ch
      ensures x < |ns| && x < |ns'| && ns'[x] == ns[x]
    {
      assert x in Members(ch) && x in Ids(s) && x !in G;
    }
    assert i in Ids(s) && i !in G;
    if |e| > 1 {
      SubIds(c, e[1..]);
      assert c.id in Ids(c);
    }
  }

  /** The child a replacement on side `b` leaves alone. */
  function Other(s: Shape, b: bool): Shape
    requires s.Cell?
  {
    if b then s.left else s.right
  }

  /** A tree node with one child replaced by a fitting shape whose root
      points back to it, where the node's own record changed in that child
      pointer only, and the other child and the chain kept their records. */
  lemma ReplaceChild<T>(ns: seq<Rec<T>>, ns': seq<Rec<T>>, s: Shape, b: bool, c': Shape)
    requires Fits(ns, s) && s.Cell? && Fits(ns', c')
    requires c'.Cell? ==> ns'[c'.id].parent == Some(s.id)
    requires s.id < |ns'|
    requires ns'[s.id] == if b then ns[s.id].(right := Id(c')) else ns[s.id].(left := Id(c'))
    requires forall x :: x in Ids(Other(s, b)) ==> x < |ns| && x < |ns'| && ns'[x] == ns[x]
    requires forall x :: x in s.chain ==> x < |ns| && x < |ns'| && ns'[x] == ns[x]
    ensures Fits(ns', if b then s.(right := c') else s.(left := c'))
    ensures Abs(ns, s).Node?
    ensures Abs(ns', if b then s.(right := c') else s.(left := c'))
              == if b then Abs(ns, s).(right := Abs(ns', c')) else Abs(ns, s).(left := Abs(ns', c'))
  {
    var o := Other(s, b);
    assert Fits(ns, s.left) && Fits(ns, s.right);
    Frame(ns, ns', o);
    FrameChain(ns, ns', s.id, s.chain);
    assert o.Cell? ==> o.id in Ids(o);
  }

  /** Replacing one child keeps chain parents live, and tight, when the
      new child's are. */
  lemma ReplaceChildLive<T>(ns: seq<Rec<T>>, ns': seq<Rec<T>>, s: Shape, b: bool, c': Shape)
    requires Live(ns, s) && s.Cell? && Live(ns', c')
    requires forall x :: x in Ids(Other(s, b)) ==> x < |ns| && x < |ns'| && ns'[x] == ns[x]
    requires forall x :: x in s.chain ==> x < |ns| && x < |ns'| && ns'[x] == ns[x]
    ensures Live(ns', if b then s.(right := c') else s.(left := c'))
  {
    assert Live(ns, s.left) && Live(ns, s.right);
    FrameLive(ns, ns', Other(s, b));
    var ch := s.chain;
    forall j | 0 <= j < |ch| && ch[j] < |ns'|
      ensures LiveParent(ns', s.id, ch, j)
    {
      assert ch[j] in ch;
      assert LiveParent(ns, s.id, ch, j);
    }
  }

  lemma ReplaceChildTight<T>(ns: seq<Rec<T>>, ns': seq<Rec<T>>, s: Shape, b: bool, c': Shape)
    requires Tight(ns, s) && s.Cell? && Tight(ns', c')
    requires forall x :: x in Ids(Other(s, b)) ==> x < |ns| && x < |ns'| && ns'[x] == ns[x]
    requires forall x :: x in s.chain ==> x < |ns| && x < |ns'| && ns'[x] == ns[x]
    ensures Tight(ns', if b then s.(right := c') else s.(left := c'))
  {
    assert Tight(ns, s.left) && Tight(ns, s.right);
    FrameTight(ns, ns', Other(s, b));
    assert forall j :: 0 <= j < |s.chain| ==> s.chain[j] in s.chain;
  }

  lemma {:induction false} TightSub<T>(ns: seq<Rec<T>>, s: Shape, d: seq<bool>)
    requires Tight(ns, s)
    ensures Tight(ns, Sub(s, d))
  {
    if |d| > 0 && s.Cell? {
      TightSub(ns, Child(s, d[0]), d[1..]);
    }
  }

  /** The same replacement keeps chain parents live, and tight. */
  lemma {:induction false} GraftLive<T>(ns: seq<Rec<T>>, ns': seq<Rec<T>>, s: Shape, e: seq<bool>, u: Shape)
    requires Live(ns, s) && Distinct(s) && Sub(s, e).Cell? && Live(ns', u)
    requires forall x :: x in Ids(s) && x !in Ids(Sub(s, e)) ==> x < |ns| && x < |ns'| && ns'[x] == ns[x]
    ensures Live(ns', SGraft(s, e, u))
  {
    if |e| > 0 {
      var Cell(i, ch, l, r) := s;
      var c, o := Child(s, e[0]), Other(s, e[0]);
      GraftStep(ns, ns', s, e);
      GraftLive(ns, ns', c, e[1..], u);
      FrameLive(ns, ns', o);
      forall j | 0 <= j < |ch| && ch[j] < |ns'|
        ensures LiveParent(ns', i, ch, j)
      {
        assert ch[j] in ch;
        assert LiveParent(ns, i, ch, j);
      }
    }
  }

  lemma {:induction false} GraftTight<T>(ns: seq<Rec<T>>, ns': seq<Rec<T>>, s: Shape, e: seq<bool>, u: Shape)
    requires Tight(ns, s) && Distinct(s) && Sub(s, e).Cell? && Tight(ns', u)
    requires forall x :: x in Ids(s) && x !in Ids(Sub(s, e)) ==> x < |ns| && x < |ns'| && ns'[x] == ns[x]
    ensures Tight(ns', SGraft(s, e, u))
  {
    if |e| > 0 {
      var Cell(i, ch, l, r) := s;
      var c, o := Child(s, e[0]), Other(s, e[0]);
      GraftStep(ns, ns', s, e);
      GraftTight(ns, ns', c, e[1..], u);
      FrameTight(ns, ns', o);
      assert forall j :: 0 <= j < |ch| ==> ch[j] in ch;
    }
  }

  /** The replacement uses the indices outside the replaced subtree and
      those of `u`, each once, when `u` brings only `extra` indices (unused
      so far) or ones the replaced subtree used. */
  lemma {:induction false} GraftIds(s: Shape, e: seq<bool>, u: Shape, extra: set<nat>)
    requires Distinct(s) && Distinct(u) && Sub(s, e).Cell?
    requires Ids(u) <= Ids(Sub(s, e)) + extra && extra !! Ids(s)
    ensures Distinct(SGraft(s, e, u))
    ensures Ids(SGraft(s, e, u)) == (Ids(s) - Ids(Sub(s, e))) + Ids(u)
  {
    if |e| > 0 {
      var c := Child(s, e[0]);
      SubIds(s, e);
      assert Sub(s, e) == Sub(c, e[1..]);
      GraftIds(c, e[1..], u, extra);
      ReplaceIds(s, e[0], SGraft(c, e[1..], u), Ids(Sub(s, e)), Ids(u), extra);
    } else {
      assert SGraft(s, e, u) == u && Sub(s, e) == s;
    }
  }

  /** One level of `GraftIds`: the child on side `b` loses the indices `x`
      and gains `y`, which are either among `x` or fresh. */
  lemma ReplaceIds(s: Shape, b: bool, c': Shape, x: set<nat>, y: set<nat>, extra: set<nat>)
    requires Distinct(s) && s.Cell? && Distinct(c')
    requires x <= Ids(Child(s, b)) && Ids(c') == (Ids(Child(s, b)) - x) + y
    requires y <= x + extra && extra !! Ids(s)
    ensures var t := if b then s.(right := c') else s.(left := c');
      Distinct(t) && Ids(t) == (Ids(s) - x) + y
  {
    var Cell(i, ch, l, r) := s;
    assert Ids(s) == Ids(l) + ({i} + Members(ch)) + Ids(r);
    assert Ids(c') <= Ids(Child(s, b)) + extra;
  }
}
