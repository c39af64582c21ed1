/** The in-order listing of a priority queue: a sequence of (priority, value)
    entries, ascending by priority, with entries of equal priority kept in
    the order in which they arrived. Every operation of the queue is stated
    against this abstraction. */
module Listing {

  /** One logical entry of the queue. */
  datatype Entry<T> = Entry(prio: int, value: T)

  /** Non-decreasing priority order. */
  predicate Sorted<T>(s: seq<Entry<T>>) {
    forall i, j :: 0 <= i < j < |s| ==> s[i].prio <= s[j].prio
  }

  /** The values of priority `p` in `s`, in the order they appear. */
  function ValuesAt<T>(s: seq<Entry<T>>, p: int): seq<T> {
    if |s| == 0 then []
    else (if s[0].prio == p then [s[0].value] else []) + ValuesAt(s[1..], p)
  }

  /** Two listings that hold the same values, in the same order, at every
      priority. */
  ghost predicate SameValues<T>(a: seq<Entry<T>>, b: seq<Entry<T>>) {
    forall k :: ValuesAt(a, k) == ValuesAt(b, k)
  }

  /** The values of a listing, in order. */
  function Values<T>(s: seq<Entry<T>>): (r: seq<T>)
    ensures |r| == |s|
    ensures forall i :: 0 <= i < |s| ==> r[i] == s[i].value
  {
    if |s| == 0 then [] else [s[0].value] + Values(s[1..])
  }

  /** The entries of one duplicate chain: every value carries priority `p`. */
  function Chain<T>(p: int, vs: seq<T>): (r: seq<Entry<T>>)
    ensures |r| == |vs|
    ensures forall i :: 0 <= i < |vs| ==> r[i] == Entry(p, vs[i])
    ensures forall e :: e in r ==> e.prio == p
  {
    if |vs| == 0 then [] else [Entry(p, vs[0])] + Chain(p, vs[1..])
  }

  /** The number of leading entries whose priority is at most `p`; in a
      sorted listing, the position right after the last such entry. */
  function SplitPoint<T>(s: seq<Entry<T>>, p: int): (k: nat)
    ensures k <= |s|
    ensures forall i :: 0 <= i < k ==> s[i].prio <= p
    ensures k < |s| ==> p < s[k].prio
    ensures Sorted(s) ==> forall i :: k <= i < |s| ==> p < s[i].prio
  {
    if |s| == 0 || p < s[0].prio then 0 else 1 + SplitPoint(s[1..], p)
  }

  /** The listing after a new entry `(p, v)` is placed behind the leading
      entries of priority at most `p`. */
  function InsertAfterLE<T>(s: seq<Entry<T>>, p: int, v: T): (r: seq<Entry<T>>)
    ensures |r| == |s| + 1
  {
    if |s| == 0 then [Entry(p, v)]
    else if s[0].prio <= p then [s[0]] + InsertAfterLE(s[1..], p, v)
    else [Entry(p, v)] + s
  }

  // ---------------------------------------------------------------------
  // small sequence facts, kept apart so that each proof stays cheap
  // ---------------------------------------------------------------------

  lemma ConsTail<X>(x: X, a: seq<X>, b: seq<X>)
    ensures ([x] + a) + b == [x] + (a + b)
  {
  }

  lemma Assoc<X>(a: seq<X>, b: seq<X>, c: seq<X>)
    ensures a + b + c == a + (b + c)
  {
  }

  lemma ConsAssoc<X>(x: X, a: seq<X>, b: seq<X>, c: seq<X>)
    ensures ([x] + a) + b + c == [x] + (a + b + c)
  {
  }

  lemma ConcatTail<X>(a: seq<X>, b: seq<X>)
    requires |a| > 0
    ensures (a + b)[1..] == a[1..] + b
    ensures (a + b)[0] == a[0]
  {
  }

  lemma SliceCons<X>(s: seq<X>, k: nat)
    requires k < |s|
    ensures s[..k + 1] == [s[0]] + s[1..][..k]
    ensures s[k + 1..] == s[1..][k..]
  {
  }

  lemma HeadTail<X>(s: seq<X>)
    requires |s| > 0
    ensures [s[0]] + s[1..] == s
  {
  }

  lemma ChainCons<T>(p: int, v: T, vs: seq<T>)
    ensures Chain(p, [v] + vs) == [Entry(p, v)] + Chain(p, vs)
  {
  }

  lemma ChainSnoc<T>(p: int, vs: seq<T>, v: T)
    ensures Chain(p, vs + [v]) == Chain(p, vs) + [Entry(p, v)]
  {
  }

  // ---------------------------------------------------------------------
  // values per priority
  // ---------------------------------------------------------------------

  lemma {:induction false} ValuesAtConcat<T>(a: seq<Entry<T>>, b: seq<Entry<T>>, p: int)
    ensures ValuesAt(a + b, p) == ValuesAt(a, p) + ValuesAt(b, p)
  {
    if |a| == 0 {
      assert a + b == b;
    } else {
      ConcatTail(a, b);
      ValuesAtConcat(a[1..], b, p);
      var h := if a[0].prio == p then [a[0].value] else [];
      assert ValuesAt(a + b, p) == h + ValuesAt(a[1..] + b, p);
      assert ValuesAt(a, p) == h + ValuesAt(a[1..], p);
    }
  }

  /** A listing that holds no entry of priority `p` has no values there. */
  lemma {:induction false} ValuesAtAbsent<T>(s: seq<Entry<T>>, p: int)
    requires forall e :: e in s ==> e.prio != p
    ensures ValuesAt(s, p) == []
  {
    if |s| > 0 {
      assert s[0] in s;
      assert forall e :: e in s[1..] ==> e in s;
      ValuesAtAbsent(s[1..], p);
    }
  }

  /** The values a chain contributes at each priority. */
  lemma {:induction false} ValuesAtChain<T>(q: int, vs: seq<T>, p: int)
    ensures ValuesAt(Chain(q, vs), p) == if p == q then vs else []
  {
    if |vs| > 0 {
      ValuesAtChain(q, vs[1..], p);
      HeadTail(vs);
    }
  }

  /** In a sorted listing, no value has a priority below the first entry's. */
  lemma SortedValuesBelowHead<T>(s: seq<Entry<T>>, q: int)
    requires Sorted(s)
    ensures |s| > 0 && q < s[0].prio ==> ValuesAt(s, q) == []
  {
    if |s| > 0 && q < s[0].prio {
      forall e | e in s ensures e.prio != q {
        var i :| 0 <= i < |s| && s[i] == e;
        assert s[0].prio <= s[i].prio;
      }
      ValuesAtAbsent(s, q);
    }
  }

  lemma SortedConcat<T>(a: seq<Entry<T>>, b: seq<Entry<T>>)
    requires Sorted(a) && Sorted(b)
    requires forall x, y :: x in a && y in b ==> x.prio <= y.prio
    ensures Sorted(a + b)
  {
    var s := a + b;
    forall i, j | 0 <= i < j < |s| ensures s[i].prio <= s[j].prio {
      if j < |a| {
      } else if i < |a| {
        assert s[i] in a && s[j] in b;
      } else {
        assert s[i] == b[i - |a|] && s[j] == b[j - |a|];
      }
    }
  }

  // ---------------------------------------------------------------------
  // where enqueue puts a new entry
  // ---------------------------------------------------------------------

  /** The new entry lands right after the leading run of entries of priority
      at most `p`; the entries before and after it keep their order. */
  lemma {:induction false} InsertAfterLESplit<T>(s: seq<Entry<T>>, p: int, v: T)
    ensures InsertAfterLE(s, p, v)
              == s[..SplitPoint(s, p)] + [Entry(p, v)] + s[SplitPoint(s, p)..]
  {
    if |s| > 0 && s[0].prio <= p {
      InsertAfterLESplit(s[1..], p, v);
      var k := SplitPoint(s[1..], p);
      SliceCons(s, k);
      ConsAssoc(s[0], s[1..][..k], [Entry(p, v)], s[1..][k..]);
    }
  }

  /** Entries above `p` after a listing do not move the insertion point. */
  lemma {:induction false} InsertAfterLEAbove<T>(a: seq<Entry<T>>, b: seq<Entry<T>>, p: int, v: T)
    requires forall e :: e in b ==> p < e.prio
    ensures InsertAfterLE(a + b, p, v) == InsertAfterLE(a, p, v) + b
  {
    if |a| == 0 {
      assert a + b == b;
      if |b| > 0 {
        assert b[0] in b;
      }
    } else {
      ConcatTail(a, b);
      if a[0].prio <= p {
        InsertAfterLEAbove(a[1..], b, p, v);
        ConsTail(a[0], InsertAfterLE(a[1..], p, v), b);
      } else {
        ConsTail(Entry(p, v), a, b);
      }
    }
  }

  /** Entries at most `p` before a listing all stay in front of the new one. */
  lemma {:induction false} InsertAfterLEBelow<T>(a: seq<Entry<T>>, b: seq<Entry<T>>, p: int, v: T)
    requires forall e :: e in a ==> e.prio <= p
    ensures InsertAfterLE(a + b, p, v) == a + InsertAfterLE(b, p, v)
  {
    if |a| == 0 {
      assert a + b == b;
    } else {
      ConcatTail(a, b);
      assert a[0] in a;
      assert forall e :: e in a[1..] ==> e in a;
      InsertAfterLEBelow(a[1..], b, p, v);
      ConsTail(a[0], a[1..], InsertAfterLE(b, p, v));
      HeadTail(a);
    }
  }

  /** A new entry whose priority is at least every earlier one's and below
      every later one's goes exactly between them. */
  lemma InsertAfterLEBetween<T>(a: seq<Entry<T>>, b: seq<Entry<T>>, p: int, v: T)
    requires forall e :: e in a ==> e.prio <= p
    requires forall e :: e in b ==> p < e.prio
    ensures InsertAfterLE(a + b, p, v) == a + [Entry(p, v)] + b
  {
    InsertAfterLEAbove(a, b, p, v);
    InsertAfterLEBelow(a, [], p, v);
    assert a + [] == a;
  }

  /** Inserting keeps the listing sorted, adds one entry, and adds nothing
      but the new entry. */
  lemma {:induction false} InsertAfterLESorted<T>(s: seq<Entry<T>>, p: int, v: T)
    requires Sorted(s)
    ensures Sorted(InsertAfterLE(s, p, v))
    ensures |InsertAfterLE(s, p, v)| == |s| + 1
    ensures forall e :: e in InsertAfterLE(s, p, v) ==> e in s || e == Entry(p, v)
  {
    if |s| > 0 {
      if s[0].prio <= p {
        InsertAfterLESorted(s[1..], p, v);
        var r := InsertAfterLE(s[1..], p, v);
        forall e | e in r ensures s[0].prio <= e.prio && (e in s || e == Entry(p, v)) {
          if e in s[1..] {
            var i :| 0 <= i < |s[1..]| && s[1..][i] == e;
            assert s[i + 1] == e;
          }
        }
        SortedConcat([s[0]], r);
      } else {
        SortedConcat([Entry(p, v)], s);
      }
    }
  }

  /** Inserting appends `v` to the values of priority `p` and leaves every
      other priority's values alone. */
  lemma {:induction false} InsertAfterLEValues<T>(s: seq<Entry<T>>, p: int, v: T, q: int)
    requires Sorted(s)
    ensures ValuesAt(InsertAfterLE(s, p, v), q) == ValuesAt(s, q) + (if q == p then [v] else [])
  {
    if |s| == 0 {
    } else if s[0].prio <= p {
      InsertAfterLEValues(s[1..], p, v, q);
      ValuesAtConcat([s[0]], InsertAfterLE(s[1..], p, v), q);
      ValuesAtConcat([s[0]], s[1..], q);
      HeadTail(s);
    } else {
      ValuesAtConcat([Entry(p, v)], s, q);
      SortedValuesBelowHead(s, p);
    }
  }

  /** A sorted listing is determined by its values at every priority: the
      listing of a queue is fixed by what each priority holds, in order. */
  lemma {:induction false} SortedUnique<T>(a: seq<Entry<T>>, b: seq<Entry<T>>)
    requires Sorted(a) && Sorted(b)
    requires SameValues(a, b)
    ensures a == b
    decreases |a| + |b|
  {
    assert |a| > 0 ==> ValuesAt(b, a[0].prio) != [];
    assert |b| > 0 ==> ValuesAt(a, b[0].prio) != [];
    if |a| > 0 && |b| > 0 {
      var p := a[0].prio;
      SortedValuesBelowHead(a, b[0].prio);
      SortedValuesBelowHead(b, p);
      assert p == b[0].prio;
      assert ValuesAt(a, p)[0] == a[0].value;
      assert ValuesAt(b, p)[0] == b[0].value;
      forall q ensures ValuesAt(a[1..], q) == ValuesAt(b[1..], q) {
        if q == p {
          assert ValuesAt(a[1..], q) == ValuesAt(a, q)[1..];
          assert ValuesAt(b[1..], q) == ValuesAt(b, q)[1..];
        } else {
          assert ValuesAt(a[1..], q) == ValuesAt(a, q);
          assert ValuesAt(b[1..], q) == ValuesAt(b, q);
        }
      }
      SortedUnique(a[1..], b[1..]);
      HeadTail(a);
      HeadTail(b);
    }
  }
}
