/**
 * The shape of one list in the node arena, stated on plain values: the ring
 * `[f] + ns + [b]` of the sentinels `f`, `b` and the payload nodes `ns`, and
 * how each list operation's sequence of node-level steps carries one
 * well-formed shape to the next.
 */
module Shape {
  import opened XorPtr
  import opened Ring
  import opened Node

  /** The ring of a list with sentinels `f`, `b` and payload nodes `ns`. */
  function Loop(f: Addr, ns: seq<Addr>, b: Addr): (w: seq<Addr>)
    ensures |w| == |ns| + 2 && w[0] == f && w[|w| - 1] == b
  {
    [f] + ns + [b]
  }

  /** A well-formed list: its ring is linked and duplicate-free, its payload
      nodes carry data and its sentinels do not, and only allocated nodes
      carry data. */
  ghost predicate Wf<T>(link: map<Addr, Cell>, datum: map<Addr, T>, f: Addr, b: Addr, ns: seq<Addr>)
  {
    && Linked(link, Loop(f, ns, b))
    && Distinct(Loop(f, ns, b))
    && (forall i :: 0 <= i < |ns| ==> ns[i] in datum)
    && f !in datum && b !in datum
    && datum.Keys <= link.Keys
  }

  /** The data of the nodes `ns`, in order. */
  function Values<T>(datum: map<Addr, T>, ns: seq<Addr>): (r: seq<T>)
    requires forall i :: 0 <= i < |ns| ==> ns[i] in datum
    ensures |r| == |ns|
    ensures forall i :: 0 <= i < |ns| ==> r[i] == datum[ns[i]]
  {
    seq(|ns|, i requires 0 <= i < |ns| => datum[ns[i]])
  }

  /** Every datum outside `ns` is as it was. */
  ghost predicate KeepsData<T>(d0: map<Addr, T>, d1: map<Addr, T>, ns: seq<Addr>)
  {
    forall a :: a in d0 && a !in ns ==> a in d1 && d1[a] == d0[a]
  }

  /** The payload nodes of a well-formed list are distinct from one another
      and from the sentinels. */
  lemma LoopDistinct(f: Addr, ns: seq<Addr>, b: Addr)
    requires Distinct(Loop(f, ns, b))
    ensures Distinct(ns) && f !in ns && b !in ns && f != b
  {
    var w := Loop(f, ns, b);
    forall i, j | 0 <= i < j < |ns| ensures ns[i] != ns[j] {
      assert ns[i] == w[i + 1] && ns[j] == w[j + 1];
    }
    forall i | 0 <= i < |ns| ensures ns[i] != f && ns[i] != b {
      assert ns[i] == w[i + 1];
    }
  }

  /** The data after a node holding `v` is allocated at the unused address
      `n` and listed at index `k`. */
  lemma ValuesSplice<T>(datum: map<Addr, T>, ns: seq<Addr>, k: nat, n: Addr, v: T)
    requires forall i :: 0 <= i < |ns| ==> ns[i] in datum
    requires n !in datum && k <= |ns|
    ensures Values(datum[n := v], ns[..k] + [n] + ns[k..]) == Values(datum, ns)[..k] + [v] + Values(datum, ns)[k..]
  {
  }

  /** The data after the node listed at index `k` is dropped and deleted. */
  lemma ValuesDrop<T>(datum: map<Addr, T>, ns: seq<Addr>, k: nat)
    requires forall i :: 0 <= i < |ns| ==> ns[i] in datum
    requires Distinct(ns) && k < |ns|
    ensures Values(datum - {ns[k]}, ns[..k] + ns[k + 1..]) == Values(datum, ns)[..k] + Values(datum, ns)[k + 1..]
  {
    var r := ns[..k] + ns[k + 1..];
    forall i | 0 <= i < |r| ensures r[i] != ns[k] {
      if i < k { assert r[i] == ns[i]; } else { assert r[i] == ns[i + 1]; }
    }
  }

  /** Indexing into `ns` with `n` listed at index `k`. */
  lemma SpliceIndex(ns: seq<Addr>, k: nat, n: Addr)
    requires k <= |ns|
    ensures var r := ns[..k] + [n] + ns[k..];
      && |r| == |ns| + 1 && r[k] == n
      && (forall i :: 0 <= i < k ==> r[i] == ns[i])
      && (forall i :: k < i <= |ns| ==> r[i] == ns[i - 1])
  {
  }

  /** Indexing into `ns` with index `k` dropped. */
  lemma DropIndex(ns: seq<Addr>, k: nat)
    requires k < |ns|
    ensures var r := ns[..k] + ns[k + 1..];
      && |r| == |ns| - 1
      && (forall i :: 0 <= i < k ==> r[i] == ns[i])
      && (forall i :: k <= i < |r| ==> r[i] == ns[i + 1])
  {
  }

  /** Splicing into the ring is splicing into its payload nodes. */
  lemma SplicedLoop(f: Addr, ns: seq<Addr>, b: Addr, k: nat, n: Addr)
    requires k <= |ns|
    ensures Spliced(Loop(f, ns, b), k + 1, n) == Loop(f, ns[..k] + [n] + ns[k..], b)
  {
    var w := Loop(f, ns, b);
    assert w[..k + 1] == [f] + ns[..k];
    assert w[k + 1..] == ns[k..] + [b];
  }

  /** Dropping from the ring is dropping from its payload nodes. */
  lemma DroppedLoop(f: Addr, ns: seq<Addr>, b: Addr, k: nat)
    requires k < |ns|
    ensures Dropped(Loop(f, ns, b), k + 1) == Loop(f, ns[..k] + ns[k + 1..], b)
  {
    var w := Loop(f, ns, b);
    calc {
      Dropped(w, k + 1);
      w[..k + 1] + w[k + 2..];
      { assert w[..k + 1] == [f] + ns[..k]; assert w[k + 2..] == ns[k + 1..] + [b]; }
      ([f] + ns[..k]) + (ns[k + 1..] + [b]);
    }
  }

  /** The addresses listed in `s`. */
  function Members(s: seq<Addr>): set<Addr>
  {
    set x | x in s
  }

  /** One more address listed at the end. */
  lemma MembersSnoc(s: seq<Addr>, x: Addr)
    ensures Members(s + [x]) == Members(s) + {x}
  {
    assert forall y :: y in s + [x] <==> y in s || y == x;
  }

  /** One more address listed at the start. */
  lemma MembersCons(s: seq<Addr>, x: Addr)
    ensures Members([x] + s) == Members(s) + {x}
  {
    assert forall y :: y in [x] + s <==> y in s || y == x;
  }

  /** A ring keeps its cells across a change that keeps every cell outside
      `v`, when the ring has no address in `v`. */
  lemma KeptLinked(l1: map<Addr, Cell>, l2: map<Addr, Cell>, w: seq<Addr>, v: seq<Addr>)
    requires Linked(l1, w) && KeepsCells(l1, l2, v)
    requires forall i :: 0 <= i < |w| ==> w[i] !in v
    ensures Linked(l2, w)
  {
    forall i | 0 <= i < |w| ensures LinkedAt(l2, w, i) {
      assert LinkedAt(l1, w, i);
    }
  }

  /** Two changes that each keep the cells outside a ring keep the cells
      outside the larger of the two rings. */
  lemma KeepsCellsTrans(l0: map<Addr, Cell>, l1: map<Addr, Cell>, l2: map<Addr, Cell>, w: seq<Addr>, v: seq<Addr>)
    requires KeepsCells(l0, l1, w) && KeepsCells(l1, l2, v)
    requires forall x :: x in v ==> x in w
    ensures KeepsCells(l0, l2, w)
  {
  }

  /** The ring after dropping a stretch of payload nodes lists only
      addresses of the ring before. */
  lemma GapLoop(f: Addr, ns: seq<Addr>, b: Addr, a: nat, c: nat)
    requires a <= c <= |ns|
    ensures forall x :: x in Loop(f, ns[..a] + ns[c..], b) ==> x in Loop(f, ns, b)
  {
    var w, v := Loop(f, ns, b), Loop(f, ns[..a] + ns[c..], b);
    forall x | x in v ensures x in w {
      var i :| 0 <= i < |v| && v[i] == x;
      if i == 0 { assert x == w[0]; }
      else if i == |v| - 1 { assert x == w[|w| - 1]; }
      else if i - 1 < a { assert x == ns[i - 1] == w[i]; }
      else { assert x == ns[i - 1 - a + c] == w[i - a + c]; }
    }
  }

  // ---------------------------------------------------------------------
  // one element in, one element out
  // ---------------------------------------------------------------------

  /** Allocating a node holding `v` at the unused address `n` and linking it
      with `insert(prev, before, n)`, where `before` is the ring position just
      in front of index `k` of `ns` and `prev` the one before that, lists `n`
      at index `k`; only the cells of `before`, `n` and the old successor of
      `before` change. */
  lemma SpliceStep<T>(link: map<Addr, Cell>, datum: map<Addr, T>, f: Addr, b: Addr, ns: seq<Addr>, k: nat, n: Addr, v: T)
    requires Wf(link, datum, f, b, ns) && n !in link && k <= |ns|
    ensures n !in Loop(f, ns, b)
    ensures var w, l0 := Loop(f, ns, b), link[n := CellOf(Null, Null)];
      && w[k] in l0 && n in l0 && w[k + 1] in l0
      && Xor(l0[w[k]], w[Prev(|w|, k)]) == w[k + 1]
      && var l := Inserted(l0, w[Prev(|w|, k)], w[k], n);
        && Loop(f, ns[..k] + [n] + ns[k..], b) == Spliced(w, k + 1, n)
        && Wf(l, datum[n := v], f, b, ns[..k] + [n] + ns[k..])
        && Values(datum[n := v], ns[..k] + [n] + ns[k..]) == Values(datum, ns)[..k] + [v] + Values(datum, ns)[k..]
        && l.Keys == link.Keys + {n}
        && KeepsCells(link, l, w)
  {
    var w := Loop(f, ns, b);
    AllocInsert(link, w, k + 1, n);
    var ns' := ns[..k] + [n] + ns[k..];
    SplicedLoop(f, ns, b, k, n);
    ValuesSplice(datum, ns, k, n, v);
    SpliceIndex(ns, k, n);
    var d := datum[n := v];
    forall i | 0 <= i < |ns'| ensures ns'[i] in d {
      if i < k { assert ns'[i] == ns[i]; } else if i > k { assert ns'[i] == ns[i - 1]; }
    }
  }

  /** As `SpliceStep` for `insert(b, f, n)`: `n` is listed first. */
  lemma SpliceFrontStep<T>(link: map<Addr, Cell>, datum: map<Addr, T>, f: Addr, b: Addr, ns: seq<Addr>, n: Addr, v: T)
    requires Wf(link, datum, f, b, ns) && n !in link
    ensures n !in Loop(f, ns, b)
    ensures var l0 := link[n := CellOf(Null, Null)];
      && f in l0 && n in l0 && Xor(l0[f], b) in l0
      && var l := Inserted(l0, b, f, n);
        && Wf(l, datum[n := v], f, b, [n] + ns)
        && Values(datum[n := v], [n] + ns) == [v] + Values(datum, ns)
        && l.Keys == link.Keys + {n}
        && KeepsCells(link, l, Loop(f, ns, b))
  {
    SpliceFrontLinks(link, f, b, ns, n);
    ValuesCons(datum, ns, n, v);
  }

  /** The cells once `insert(b, f, n)` links the fresh node `n` in first. */
  lemma SpliceFrontLinks(link: map<Addr, Cell>, f: Addr, b: Addr, ns: seq<Addr>, n: Addr)
    requires Linked(link, Loop(f, ns, b)) && Distinct(Loop(f, ns, b)) && n !in link
    ensures n !in Loop(f, ns, b)
    ensures var l0 := link[n := CellOf(Null, Null)];
      && f in l0 && n in l0 && Xor(l0[f], b) in l0
      && var l := Inserted(l0, b, f, n);
        && Linked(l, Loop(f, [n] + ns, b)) && Distinct(Loop(f, [n] + ns, b))
        && l.Keys == link.Keys + {n}
        && KeepsCells(link, l, Loop(f, ns, b))
  {
    var w := Loop(f, ns, b);
    AllocInsertFirst(link, w, n);
    assert w[0] == f && w[|w| - 1] == b;
    assert Spliced(w, 1, n) == Loop(f, [n] + ns, b) by {
      SplicedLoop(f, ns, b, 0, n);
      assert ns[..0] + [n] + ns[0..] == [n] + ns;
    }
  }

  /** The data after a node holding `v` is allocated at the unused address
      `n` and listed first. */
  lemma ValuesCons<T>(datum: map<Addr, T>, ns: seq<Addr>, n: Addr, v: T)
    requires forall i :: 0 <= i < |ns| ==> ns[i] in datum
    requires n !in datum
    ensures forall i :: 0 <= i < |[n] + ns| ==> ([n] + ns)[i] in datum[n := v]
    ensures Values(datum[n := v], [n] + ns) == [v] + Values(datum, ns)
  {
    var ns', d := [n] + ns, datum[n := v];
    forall i | 0 <= i < |ns'| ensures ns'[i] in d {
      if i > 0 { assert ns'[i] == ns[i - 1]; }
    }
  }

  /** As `SpliceStep` for `insert(f, b, n)`, which walks the ring from `b`
      backwards: `n` is listed last. */
  lemma SpliceLastStep<T>(link: map<Addr, Cell>, datum: map<Addr, T>, f: Addr, b: Addr, ns: seq<Addr>, n: Addr, v: T)
    requires Wf(link, datum, f, b, ns) && n !in link
    ensures n !in Loop(f, ns, b)
    ensures var w, l0 := Loop(f, ns, b), link[n := CellOf(Null, Null)];
      && b in l0 && n in l0 && w[|w| - 2] in l0
      && Xor(l0[b], f) == w[|w| - 2]
      && var l := Inserted(l0, f, b, n);
        && Wf(l, datum[n := v], f, b, ns + [n])
        && Values(datum[n := v], ns + [n]) == Values(datum, ns) + [v]
        && l.Keys == link.Keys + {n}
        && KeepsCells(link, l, w)
  {
    AllocInsertLast(link, Loop(f, ns, b), n);
    SnocLoop(f, ns, b, n);
    ValuesSnoc(datum, ns, n, v);
  }

  /** Listing `n` last is splicing it in just before the back sentinel. */
  lemma SnocLoop(f: Addr, ns: seq<Addr>, b: Addr, n: Addr)
    ensures Spliced(Loop(f, ns, b), |ns| + 1, n) == Loop(f, ns + [n], b)
  {
    assert ns[..|ns|] + [n] + ns[|ns|..] == ns + [n];
    SplicedLoop(f, ns, b, |ns|, n);
  }

  /** The data after a node holding `v` is allocated at the unused address
      `n` and listed last. */
  lemma ValuesSnoc<T>(datum: map<Addr, T>, ns: seq<Addr>, n: Addr, v: T)
    requires forall i :: 0 <= i < |ns| ==> ns[i] in datum
    requires n !in datum
    ensures forall i :: 0 <= i < |ns + [n]| ==> (ns + [n])[i] in datum[n := v]
    ensures Values(datum[n := v], ns + [n]) == Values(datum, ns) + [v]
  {
    var ns', d := ns + [n], datum[n := v];
    forall i | 0 <= i < |ns'| ensures ns'[i] in d {
      if i < |ns| { assert ns'[i] == ns[i]; }
    }
    var r := Values(datum, ns);
    assert ns[..|ns|] + [n] + ns[|ns|..] == ns';
    assert r[..|ns|] + [v] + r[|ns|..] == r + [v];
    ValuesSplice(datum, ns, |ns|, n, v);
  }

  /** `remove(prev, before)`, where `before` is the ring position just in
      front of index `k` of `ns` and `prev` the one before that, followed by
      `delete` of the node it returns, `ns[k]`: that node is no longer listed
      nor allocated; only the cells of `before`, the removed node and its old
      successor change. */
  lemma DropStep<T>(link: map<Addr, Cell>, datum: map<Addr, T>, f: Addr, b: Addr, ns: seq<Addr>, k: nat)
    requires Wf(link, datum, f, b, ns) && k < |ns|
    ensures var w := Loop(f, ns, b);
      && w[k] in link && w[k + 1] in link && w[k + 2] in link
      && Xor(link[w[k]], w[Prev(|w|, k)]) == ns[k] && Xor(link[ns[k]], w[k]) == w[k + 2]
      && var l := Removed(link, w[Prev(|w|, k)], w[k]) - {ns[k]};
        && Loop(f, ns[..k] + ns[k + 1..], b) == Dropped(w, k + 1)
        && Wf(l, datum - {ns[k]}, f, b, ns[..k] + ns[k + 1..])
        && Values(datum - {ns[k]}, ns[..k] + ns[k + 1..]) == Values(datum, ns)[..k] + Values(datum, ns)[k + 1..]
        && l.Keys == link.Keys - {ns[k]}
        && KeepsCells(link, l, w)
  {
    var w := Loop(f, ns, b);
    LoopDistinct(f, ns, b);
    RemoveFree(link, w, k + 1);
    DroppedLoop(f, ns, b, k);
    DropData(datum, f, b, ns, k);
  }

  /** Dropping the payload node at index `k` together with its datum keeps
      the data of the others, in order. */
  lemma DropData<T>(datum: map<Addr, T>, f: Addr, b: Addr, ns: seq<Addr>, k: nat)
    requires (forall i :: 0 <= i < |ns| ==> ns[i] in datum) && f !in datum && b !in datum
    requires Distinct(ns) && k < |ns|
    ensures var ns', d := ns[..k] + ns[k + 1..], datum - {ns[k]};
      && (forall i :: 0 <= i < |ns'| ==> ns'[i] in d) && f !in d && b !in d && d.Keys <= datum.Keys
      && Values(d, ns') == Values(datum, ns)[..k] + Values(datum, ns)[k + 1..]
  {
    var ns' := ns[..k] + ns[k + 1..];
    ValuesDrop(datum, ns, k);
    DropIndex(ns, k);
    var d := datum - {ns[k]};
    forall i | 0 <= i < |ns'| ensures ns'[i] in d {
      if i < k { assert ns'[i] == ns[i]; } else { assert ns'[i] == ns[i + 1]; }
    }
  }

  /** As `DropStep` for `remove(b, f)`: the first node goes. */
  lemma DropFrontStep<T>(link: map<Addr, Cell>, datum: map<Addr, T>, f: Addr, b: Addr, ns: seq<Addr>)
    requires Wf(link, datum, f, b, ns) && |ns| > 0
    ensures f in link && ns[0] in link
    ensures Xor(link[f], b) == ns[0] && Xor(link[ns[0]], f) in link
    ensures var l := Removed(link, b, f) - {ns[0]};
      && Wf(l, datum - {ns[0]}, f, b, ns[1..])
      && Values(datum - {ns[0]}, ns[1..]) == Values(datum, ns)[1..]
      && l.Keys == link.Keys - {ns[0]}
      && KeepsCells(link, l, Loop(f, ns, b))
  {
    LoopDistinct(f, ns, b);
    DropFrontLinks(link, f, b, ns);
    DropFrontData(datum, f, b, ns);
  }

  /** The cells once `remove(b, f)` unlinks the first node and it is
      deleted. */
  lemma DropFrontLinks(link: map<Addr, Cell>, f: Addr, b: Addr, ns: seq<Addr>)
    requires Linked(link, Loop(f, ns, b)) && Distinct(Loop(f, ns, b)) && |ns| > 0
    ensures f in link && ns[0] in link
    ensures Xor(link[f], b) == ns[0] && Xor(link[ns[0]], f) in link
    ensures var l := Removed(link, b, f) - {ns[0]};
      && Linked(l, Loop(f, ns[1..], b)) && Distinct(Loop(f, ns[1..], b))
      && l.Keys == link.Keys - {ns[0]}
      && KeepsCells(link, l, Loop(f, ns, b))
  {
    var w := Loop(f, ns, b);
    RemoveFree(link, w, 1);
    assert w[0] == f && w[Prev(|w|, 0)] == b && w[1] == ns[0];
    assert Dropped(w, 1) == Loop(f, ns[1..], b) by {
      DroppedLoop(f, ns, b, 0);
      assert ns[..0] + ns[1..] == ns[1..];
    }
  }

  /** The data once the first node is deleted. */
  lemma DropFrontData<T>(datum: map<Addr, T>, f: Addr, b: Addr, ns: seq<Addr>)
    requires (forall i :: 0 <= i < |ns| ==> ns[i] in datum) && f !in datum && b !in datum
    requires Distinct(ns) && |ns| > 0
    ensures var ns', d := ns[1..], datum - {ns[0]};
      && (forall i :: 0 <= i < |ns'| ==> ns'[i] in d) && f !in d && b !in d && d.Keys <= datum.Keys
      && Values(d, ns') == Values(datum, ns)[1..]
  {
    var ns', d := ns[1..], datum - {ns[0]};
    forall i | 0 <= i < |ns'| ensures ns'[i] in d {
      assert ns'[i] == ns[i + 1];
    }
  }

  /** As `DropStep` for `remove(f, b)`: the last node goes. */
  lemma DropLastStep<T>(link: map<Addr, Cell>, datum: map<Addr, T>, f: Addr, b: Addr, ns: seq<Addr>)
    requires Wf(link, datum, f, b, ns) && |ns| > 0
    ensures var w, k := Loop(f, ns, b), |ns| - 1;
      && b in link && ns[k] in link && w[k] in link
      && Xor(link[b], f) == ns[k] && Xor(link[ns[k]], b) == w[k]
      && var l := Removed(link, f, b) - {ns[k]};
        && Wf(l, datum - {ns[k]}, f, b, ns[..k])
        && Values(datum - {ns[k]}, ns[..k]) == Values(datum, ns)[..k]
        && l.Keys == link.Keys - {ns[k]}
        && KeepsCells(link, l, w)
  {
    var w, k := Loop(f, ns, b), |ns| - 1;
    LoopDistinct(f, ns, b);
    RemoveFreeLast(link, w);
    DroppedLoop(f, ns, b, k);
    ValuesDrop(datum, ns, k);
    assert ns[..k] + ns[k + 1..] == ns[..k];
  }

  // ---------------------------------------------------------------------
  // swap
  // ---------------------------------------------------------------------

  /** After one side's fix-up in `swap`: the cells of the payload nodes `ns`
      already encode the ring `[f2] + ns + [b2]` of the other list's
      sentinels, and the cells at `f` and `b` hold what `f2` and `b2` must
      hold on that ring. */
  ghost predicate Retargeted(link: map<Addr, Cell>, f: Addr, b: Addr, ns: seq<Addr>, f2: Addr, b2: Addr)
  {
    var w := Loop(f2, ns, b2);
    && (forall i :: 1 <= i <= |ns| ==> LinkedAt(link, w, i))
    && f in link && link[f] == CellOf(b2, w[1])
    && b in link && link[b] == CellOf(w[|w| - 2], f2)
  }

  /** The fix-up of an empty list: `front_.setptr(&l.back_, &l.back_)` and
      `back_.setptr(&l.front_, &l.front_)`. */
  lemma RetargetEmpty(link: map<Addr, Cell>, f: Addr, b: Addr, f2: Addr, b2: Addr)
    requires f in link && b in link && f != b
    ensures Retargeted(link[f := CellOf(b2, b2)][b := CellOf(f2, f2)], f, b, [], f2, b2)
  {
  }

  /** The fix-up of a one-element list `[e]`: the sentinels get
      `(&l.back_, e)` and `(e, &l.front_)`, and `e` gets
      `(&l.back_, &l.front_)`. */
  lemma RetargetOne(link: map<Addr, Cell>, f: Addr, b: Addr, e: Addr, f2: Addr, b2: Addr)
    requires f in link && b in link && e in link && f != b && e != f && e != b
    ensures Retargeted(link[f := CellOf(b2, e)][b := CellOf(e, f2)][e := CellOf(b2, f2)], f, b, [e], f2, b2)
  {
    var l := link[f := CellOf(b2, e)][b := CellOf(e, f2)][e := CellOf(b2, f2)];
    CellOfSymmetric(b2, f2);
    assert LinkedAt(l, Loop(f2, [e], b2), 1);
  }

  /** The fix-up of a list of two or more: the sentinels get
      `(&l.back_, first)` and `(&l.front_, last)`, `first` gets
      `(&l.front_, second)` and `last` gets `(&l.back_, before_last)`; the
      nodes in between keep their cells. */
  lemma RetargetMany(link: map<Addr, Cell>, f: Addr, b: Addr, ns: seq<Addr>, f2: Addr, b2: Addr)
    requires Linked(link, Loop(f, ns, b)) && Distinct(Loop(f, ns, b)) && |ns| >= 2
    ensures var k := |ns|;
      Retargeted(link[f := CellOf(b2, ns[0])][b := CellOf(f2, ns[k - 1])]
                     [ns[0] := CellOf(f2, ns[1])][ns[k - 1] := CellOf(b2, ns[k - 2])], f, b, ns, f2, b2)
  {
    var k := |ns|;
    var l := link[f := CellOf(b2, ns[0])][b := CellOf(f2, ns[k - 1])]
                 [ns[0] := CellOf(f2, ns[1])][ns[k - 1] := CellOf(b2, ns[k - 2])];
    var w, w2 := Loop(f, ns, b), Loop(f2, ns, b2);
    LoopDistinct(f, ns, b);
    CellOfSymmetric(f2, ns[k - 1]);
    CellOfSymmetric(b2, ns[k - 2]);
    assert LinkedAt(l, w2, 1);
    assert LinkedAt(l, w2, k);
    forall i | 1 <= i < k - 1 ensures ns[i] in link && ns[i] in l && l[ns[i]] == link[ns[i]] {
      assert LinkedAt(link, w, i + 1);
      assert w[i + 1] == ns[i] != ns[0] && ns[i] != ns[k - 1];
    }
    RetargetMiddle(link, l, f, b, ns, f2, b2);
  }

  /** The payload nodes strictly between the first and the last keep their
      cells, which already name their neighbours on the retargeted ring. */
  lemma RetargetMiddle(link: map<Addr, Cell>, l: map<Addr, Cell>, f: Addr, b: Addr, ns: seq<Addr>, f2: Addr, b2: Addr)
    requires Linked(link, Loop(f, ns, b)) && |ns| >= 2
    requires forall i :: 1 <= i < |ns| - 1 ==> ns[i] in link && ns[i] in l && l[ns[i]] == link[ns[i]]
    ensures forall i :: 2 <= i < |ns| ==> LinkedAt(l, Loop(f2, ns, b2), i)
  {
    var w, w2 := Loop(f, ns, b), Loop(f2, ns, b2);
    forall i | 2 <= i < |ns| ensures LinkedAt(l, w2, i) {
      assert LinkedAt(link, w, i);
      assert w[i] == ns[i - 1] == w2[i] && ns[i - 1] in l;
      assert Prev(|w|, i) == i - 1 && Next(|w|, i) == i + 1;
      assert w[i - 1] == w2[i - 1] && w[i + 1] == w2[i + 1];
    }
  }

  /** The cells a fix-up leaves behind are not touched by work on a ring
      disjoint from them. */
  lemma RetargetedFrame(l1: map<Addr, Cell>, l2: map<Addr, Cell>, f: Addr, b: Addr, ns: seq<Addr>, f2: Addr, b2: Addr, v: seq<Addr>)
    requires Retargeted(l1, f, b, ns, f2, b2) && KeepsCells(l1, l2, v)
    requires f !in v && b !in v && forall i :: 0 <= i < |ns| ==> ns[i] !in v
    ensures Retargeted(l2, f, b, ns, f2, b2)
  {
    var w := Loop(f2, ns, b2);
    forall i | 1 <= i <= |ns| ensures LinkedAt(l2, w, i) {
      assert LinkedAt(l1, w, i);
    }
  }

  /** `front_.swap(l.front_)` and `back_.swap(l.back_)`: the two pairs of
      sentinel cells trade places. */
  function Exchanged(link: map<Addr, Cell>, f: Addr, b: Addr, f2: Addr, b2: Addr): (l: map<Addr, Cell>)
    requires f in link && b in link && f2 in link && b2 in link
    requires f != b && f2 != b2 && f != f2 && f != b2 && b != f2 && b != b2
    ensures l.Keys == link.Keys
    ensures l[f] == link[f2] && l[f2] == link[f] && l[b] == link[b2] && l[b2] == link[b]
    ensures forall x :: x in link && x != f && x != b && x != f2 && x != b2 ==> l[x] == link[x]
  {
    link[f := link[f2]][f2 := link[f]][b := link[b2]][b2 := link[b]]
  }

  /** Two lists whose rings share no address: their sentinels are four
      different addresses, each foreign to the other list's payload nodes. */
  lemma Apart(f: Addr, a: seq<Addr>, b: Addr, f2: Addr, c: seq<Addr>, b2: Addr)
    requires forall x :: x in Loop(f, a, b) ==> x !in Loop(f2, c, b2)
    ensures f != f2 && f != b2 && b != f2 && b != b2
    ensures forall i :: 0 <= i < |c| ==> c[i] != f && c[i] != b
    ensures forall i :: 0 <= i < |a| ==> a[i] != f2 && a[i] != b2
  {
    var w, w2 := Loop(f, a, b), Loop(f2, c, b2);
    assert w[0] == f && w[|w| - 1] == b && w2[0] == f2 && w2[|w2| - 1] == b2;
    assert f in w && b in w && f2 in w2 && b2 in w2;
    forall i | 0 <= i < |c| ensures c[i] != f && c[i] != b {
      assert w2[i + 1] == c[i];
      assert c[i] in w2;
    }
    forall i | 0 <= i < |a| ensures a[i] != f2 && a[i] != b2 {
      assert w[i + 1] == a[i];
      assert a[i] in w;
    }
  }

  /** After both fix-ups, exchanging the sentinel cells closes the payload
      nodes `c` of the other list into a linked ring with the sentinels
      `f`, `b`. */
  lemma SwappedRing(link: map<Addr, Cell>, f: Addr, b: Addr, c: seq<Addr>, f2: Addr, b2: Addr)
    requires Retargeted(link, f2, b2, c, f, b) && f in link && b in link
    requires f != b && f2 != b2 && f != f2 && f != b2 && b != f2 && b != b2
    requires forall i :: 0 <= i < |c| ==> c[i] != f && c[i] != b && c[i] != f2 && c[i] != b2
    ensures Linked(Exchanged(link, f, b, f2, b2), Loop(f, c, b))
  {
    var l := Exchanged(link, f, b, f2, b2);
    var w := Loop(f, c, b);
    assert LinkedAt(l, w, 0);
    assert LinkedAt(l, w, |w| - 1);
    forall i | 1 <= i < |w| - 1 ensures LinkedAt(l, w, i) {
      assert LinkedAt(link, w, i);
      assert w[i] == c[i - 1];
    }
  }

  /** Exchanging the sentinel cells is the same from either list. */
  lemma ExchangedSymmetric(link: map<Addr, Cell>, f: Addr, b: Addr, f2: Addr, b2: Addr)
    requires f in link && b in link && f2 in link && b2 in link
    requires f != b && f2 != b2 && f != f2 && f != b2 && b != f2 && b != b2
    ensures Exchanged(link, f, b, f2, b2) == Exchanged(link, f2, b2, f, b)
  {
  }

  /** The ring `[f] + c + [b]` has no repeats when `c` had none and `f`,
      `b` are two addresses foreign to it. */
  lemma SwappedDistinct(f: Addr, b: Addr, c: seq<Addr>)
    requires Distinct(c) && f != b
    requires forall i :: 0 <= i < |c| ==> c[i] != f && c[i] != b
    ensures Distinct(Loop(f, c, b))
  {
    var w := Loop(f, c, b);
    forall i, j | 0 <= i < j < |w| ensures w[i] != w[j] {
      if 0 < i && j < |w| - 1 { assert w[i] == c[i - 1] && w[j] == c[j - 1]; }
      else if 0 < i { assert w[i] == c[i - 1]; }
      else if j < |w| - 1 { assert w[j] == c[j - 1]; }
    }
  }

  /** Both sides fixed up, exchanging the sentinel cells leaves each pair
      of sentinels closing the other list's payload nodes into a linked,
      duplicate-free ring. */
  lemma SwapSentinels(link: map<Addr, Cell>, f: Addr, b: Addr, a: seq<Addr>, f2: Addr, b2: Addr, c: seq<Addr>)
    requires Retargeted(link, f, b, a, f2, b2) && Retargeted(link, f2, b2, c, f, b)
    requires Distinct(Loop(f, a, b)) && Distinct(Loop(f2, c, b2))
    requires forall x :: x in Loop(f, a, b) ==> x !in Loop(f2, c, b2)
    ensures f != b && f2 != b2 && f != f2 && f != b2 && b != f2 && b != b2
    ensures var l := Exchanged(link, f, b, f2, b2);
      && Linked(l, Loop(f, c, b)) && Linked(l, Loop(f2, a, b2))
      && Distinct(Loop(f, c, b)) && Distinct(Loop(f2, a, b2))
  {
    LoopDistinct(f, a, b);
    LoopDistinct(f2, c, b2);
    Apart(f, a, b, f2, c, b2);
    SwappedRing(link, f, b, c, f2, b2);
    SwappedRing(link, f2, b2, a, f, b);
    ExchangedSymmetric(link, f, b, f2, b2);
    SwappedDistinct(f, b, c);
    SwappedDistinct(f2, b2, a);
  }

  /** One side's fix-up in `swap`, for the list with sentinels `f`, `b` and
      payload nodes `ns` about to move behind the other list's sentinels
      `f2`, `b2`: by the size of the list, the cells of the sentinels and
      of the first and last payload nodes are overwritten (`setptr`) to name
      `f2`, `b2` where they named `f`, `b`. */
  function Retarget(link: map<Addr, Cell>, f: Addr, b: Addr, ns: seq<Addr>, f2: Addr, b2: Addr): (l: map<Addr, Cell>)
    requires f in link && b in link && forall i :: 0 <= i < |ns| ==> ns[i] in link
    ensures l.Keys == link.Keys
  {
    var k := |ns|;
    if k == 0 then
      link[f := CellOf(b2, b2)][b := CellOf(f2, f2)]
    else if k == 1 then
      link[f := CellOf(b2, ns[0])][b := CellOf(ns[0], f2)][ns[0] := CellOf(b2, f2)]
    else
      link[f := CellOf(b2, ns[0])][b := CellOf(f2, ns[k - 1])]
          [ns[0] := CellOf(f2, ns[1])][ns[k - 1] := CellOf(b2, ns[k - 2])]
  }

  /** The cells a fix-up reads: those of the sentinels and of the first and
      last payload nodes of a linked ring. */
  lemma RingEnds(link: map<Addr, Cell>, f: Addr, b: Addr, ns: seq<Addr>)
    requires Linked(link, Loop(f, ns, b))
    ensures f in link && b in link && forall i :: 0 <= i < |ns| ==> ns[i] in link
    ensures |ns| >= 1 ==> link[f] == CellOf(b, ns[0]) && link[b] == CellOf(ns[|ns| - 1], f)
    ensures |ns| >= 2 ==> link[ns[0]] == CellOf(f, ns[1]) && link[ns[|ns| - 1]] == CellOf(ns[|ns| - 2], b)
  {
    var w, n := Loop(f, ns, b), |ns|;
    LoopAllocated(link, f, ns, b);
    assert LinkedAt(link, w, 0) && LinkedAt(link, w, n + 1);
    if n >= 2 {
      assert LinkedAt(link, w, 1) && LinkedAt(link, w, n);
    }
  }

  /** Every address of a linked ring is allocated. */
  lemma LoopAllocated(link: map<Addr, Cell>, f: Addr, ns: seq<Addr>, b: Addr)
    requires Linked(link, Loop(f, ns, b))
    ensures f in link && b in link && forall i :: 0 <= i < |ns| ==> ns[i] in link
  {
    var w := Loop(f, ns, b);
    assert LinkedAt(link, w, 0) && LinkedAt(link, w, |w| - 1);
    forall i | 0 <= i < |ns| ensures ns[i] in link {
      assert LinkedAt(link, w, i + 1);
    }
  }

  /** The fix-up changes no cell outside the ring. */
  lemma RetargetFrame(link: map<Addr, Cell>, f: Addr, b: Addr, ns: seq<Addr>, f2: Addr, b2: Addr)
    requires f in link && b in link && forall i :: 0 <= i < |ns| ==> ns[i] in link
    ensures KeepsCells(link, Retarget(link, f, b, ns, f2, b2), Loop(f, ns, b))
  {
    var w := Loop(f, ns, b);
    var l := Retarget(link, f, b, ns, f2, b2);
    forall x | x in link && x !in w ensures x in l && l[x] == link[x] {
      assert x != f && x != b;
      if |ns| > 0 {
        assert x != ns[0] && x != ns[|ns| - 1] by {
          assert w[1] == ns[0] && w[|ns|] == ns[|ns| - 1];
        }
      }
    }
  }

  /** The fix-up of a well-formed ring leaves the payload nodes linked
      behind the other list's sentinels and changes no cell outside the
      ring. */
  lemma RetargetSpec(link: map<Addr, Cell>, f: Addr, b: Addr, ns: seq<Addr>, f2: Addr, b2: Addr)
    requires Linked(link, Loop(f, ns, b)) && Distinct(Loop(f, ns, b))
    ensures f in link && b in link && forall i :: 0 <= i < |ns| ==> ns[i] in link
    ensures Retargeted(Retarget(link, f, b, ns, f2, b2), f, b, ns, f2, b2)
    ensures KeepsCells(link, Retarget(link, f, b, ns, f2, b2), Loop(f, ns, b))
  {
    LoopAllocated(link, f, ns, b);
    LoopDistinct(f, ns, b);
    if |ns| == 0 {
      RetargetEmpty(link, f, b, f2, b2);
    } else if |ns| == 1 {
      RetargetOne(link, f, b, ns[0], f2, b2);
    } else {
      RetargetMany(link, f, b, ns, f2, b2);
    }
    RetargetFrame(link, f, b, ns, f2, b2);
  }

  /** `swap` as a whole on the shared arena: both fix-ups, computed from the
      cells before the call, then the exchange of the sentinel cells. */
  function Swapped(link: map<Addr, Cell>, f: Addr, b: Addr, a: seq<Addr>, f2: Addr, b2: Addr, c: seq<Addr>): (l: map<Addr, Cell>)
    requires f in link && b in link && f2 in link && b2 in link
    requires forall i :: 0 <= i < |a| ==> a[i] in link
    requires forall i :: 0 <= i < |c| ==> c[i] in link
    requires f != b && f2 != b2 && f != f2 && f != b2 && b != f2 && b != b2
    ensures l.Keys == link.Keys
  {
    var l1 := Retarget(link, f, b, a, f2, b2);
    var l2 := Retarget(l1, f2, b2, c, f, b);
    Exchanged(l2, f, b, f2, b2)
  }

  /** Two well-formed lists in one arena whose rings share no address. */
  ghost predicate Pair<T>(link: map<Addr, Cell>, datum: map<Addr, T>, f: Addr, b: Addr, a: seq<Addr>, f2: Addr, b2: Addr, c: seq<Addr>)
  {
    && Wf(link, datum, f, b, a) && Wf(link, datum, f2, b2, c)
    && (forall x :: x in Loop(f, a, b) ==> x !in Loop(f2, c, b2))
  }

  /** The addresses a pair of lists may touch. */
  function Both(f: Addr, b: Addr, a: seq<Addr>, f2: Addr, b2: Addr, c: seq<Addr>): seq<Addr>
  {
    Loop(f, a, b) + Loop(f2, c, b2)
  }

  /** The addresses of the arena a pair of well-formed lists relies on are
      allocated and their four sentinels are different. */
  lemma PairFacts<T>(link: map<Addr, Cell>, datum: map<Addr, T>, f: Addr, b: Addr, a: seq<Addr>, f2: Addr, b2: Addr, c: seq<Addr>)
    requires Pair(link, datum, f, b, a, f2, b2, c)
    ensures f in link && b in link && f2 in link && b2 in link
    ensures forall i :: 0 <= i < |a| ==> a[i] in link
    ensures forall i :: 0 <= i < |c| ==> c[i] in link
    ensures f != b && f2 != b2 && f != f2 && f != b2 && b != f2 && b != b2
    ensures forall i :: 0 <= i < |c| ==> c[i] != f && c[i] != b
    ensures forall i :: 0 <= i < |a| ==> a[i] != f2 && a[i] != b2
  {
    var w, w2 := Loop(f, a, b), Loop(f2, c, b2);
    assert LinkedAt(link, w, 0) && LinkedAt(link, w, |w| - 1);
    assert LinkedAt(link, w2, 0) && LinkedAt(link, w2, |w2| - 1);
    forall i | 0 <= i < |a| ensures a[i] in link { assert LinkedAt(link, w, i + 1); }
    forall i | 0 <= i < |c| ensures c[i] in link { assert LinkedAt(link, w2, i + 1); }
    LoopDistinct(f, a, b);
    LoopDistinct(f2, c, b2);
    Apart(f, a, b, f2, c, b2);
  }

  /** Every address of a list's ring is a sentinel or a payload node. */
  lemma LoopMembers(f: Addr, ns: seq<Addr>, b: Addr)
    ensures forall x :: x in Loop(f, ns, b) <==> x == f || x == b || x in ns
  {
  }

  /** Trading payload nodes keeps two rings apart. */
  lemma SwappedApart(f: Addr, b: Addr, a: seq<Addr>, f2: Addr, b2: Addr, c: seq<Addr>)
    requires forall x :: x in Loop(f, a, b) ==> x !in Loop(f2, c, b2)
    requires Distinct(Loop(f, a, b)) && Distinct(Loop(f2, c, b2))
    ensures forall x :: x in Loop(f, c, b) ==> x !in Loop(f2, a, b2)
  {
    LoopMembers(f, a, b);
    LoopMembers(f2, c, b2);
    LoopMembers(f, c, b);
    LoopMembers(f2, a, b2);
    LoopDistinct(f, a, b);
    LoopDistinct(f2, c, b2);
  }

  /** The fix-ups and the exchange change no cell outside the two rings. */
  lemma SwappedFrame(link: map<Addr, Cell>, f: Addr, b: Addr, a: seq<Addr>, f2: Addr, b2: Addr, c: seq<Addr>)
    requires Linked(link, Loop(f, a, b)) && Distinct(Loop(f, a, b))
    requires Linked(link, Loop(f2, c, b2)) && Distinct(Loop(f2, c, b2))
    requires forall x :: x in Loop(f, a, b) ==> x !in Loop(f2, c, b2)
    requires f in link && b in link && f2 in link && b2 in link
    requires forall i :: 0 <= i < |a| ==> a[i] in link
    requires forall i :: 0 <= i < |c| ==> c[i] in link
    requires f != b && f2 != b2 && f != f2 && f != b2 && b != f2 && b != b2
    ensures KeepsCells(link, Swapped(link, f, b, a, f2, b2, c), Both(f, b, a, f2, b2, c))
  {
    var w, w2 := Loop(f, a, b), Loop(f2, c, b2);
    var l1 := Retarget(link, f, b, a, f2, b2);
    RetargetSpec(link, f, b, a, f2, b2);
    KeptLinked(link, l1, w2, w);
    RetargetSpec(l1, f2, b2, c, f, b);
    var l := Swapped(link, f, b, a, f2, b2, c);
    LoopMembers(f, a, b);
    LoopMembers(f2, c, b2);
    forall x | x in link && x !in Both(f, b, a, f2, b2, c) ensures x in l && l[x] == link[x] {
      assert x !in w && x !in w2;
    }
  }

  /** `swap`: the two lists trade their payload nodes, each pair of
      sentinels closing the other list's nodes into a well-formed ring;
      the rings still share no address, and no cell outside them changes. */
  lemma SwappedPair<T>(link: map<Addr, Cell>, datum: map<Addr, T>, f: Addr, b: Addr, a: seq<Addr>, f2: Addr, b2: Addr, c: seq<Addr>)
    requires Pair(link, datum, f, b, a, f2, b2, c)
    ensures f in link && b in link && f2 in link && b2 in link
    ensures forall i :: 0 <= i < |a| ==> a[i] in link
    ensures forall i :: 0 <= i < |c| ==> c[i] in link
    ensures f != b && f2 != b2 && f != f2 && f != b2 && b != f2 && b != b2
    ensures var l := Swapped(link, f, b, a, f2, b2, c);
      && Pair(l, datum, f, b, c, f2, b2, a)
      && KeepsCells(link, l, Both(f, b, a, f2, b2, c))
  {
    PairFacts(link, datum, f, b, a, f2, b2, c);
    var w, w2 := Loop(f, a, b), Loop(f2, c, b2);
    var l1 := Retarget(link, f, b, a, f2, b2);
    RetargetSpec(link, f, b, a, f2, b2);
    KeptLinked(link, l1, w2, w);
    RetargetSpec(l1, f2, b2, c, f, b);
    var l2 := Retarget(l1, f2, b2, c, f, b);
    RetargetedFrame(l1, l2, f, b, a, f2, b2, w2);
    SwapSentinels(l2, f, b, a, f2, b2, c);
    SwappedApart(f, b, a, f2, b2, c);
    SwappedFrame(link, f, b, a, f2, b2, c);
  }

  /** `swap` is its own inverse: swapping the same two lists again restores
      every cell of the arena. */
  lemma {:induction false} SwapSelfInverse<T>(link: map<Addr, Cell>, datum: map<Addr, T>, f: Addr, b: Addr, a: seq<Addr>, f2: Addr, b2: Addr, c: seq<Addr>)
    requires Pair(link, datum, f, b, a, f2, b2, c)
    ensures f in link && b in link && f2 in link && b2 in link
    ensures forall i :: 0 <= i < |a| ==> a[i] in link
    ensures forall i :: 0 <= i < |c| ==> c[i] in link
    ensures f != b && f2 != b2 && f != f2 && f != b2 && b != f2 && b != b2
    ensures var l := Swapped(link, f, b, a, f2, b2, c);
      Swapped(l, f, b, c, f2, b2, a) == link
  {
    SwappedPair(link, datum, f, b, a, f2, b2, c);
    var l := Swapped(link, f, b, a, f2, b2, c);
    SwappedPair(l, datum, f, b, c, f2, b2, a);
    var l2 := Swapped(l, f, b, c, f2, b2, a);
    var w, w2 := Loop(f, a, b), Loop(f2, c, b2);
    BothCover(f, b, a, f2, b2, c);
    SameCells(link, l, l2, w, w2, Both(f, b, a, f2, b2, c), Both(f, b, c, f2, b2, a));
  }

  /** Every address of either pair of rings `swap` touches, before or after
      the exchange, is on one of the two starting rings. */
  lemma BothCover(f: Addr, b: Addr, a: seq<Addr>, f2: Addr, b2: Addr, c: seq<Addr>)
    ensures forall x :: x in Both(f, b, a, f2, b2, c) ==> x in Loop(f, a, b) || x in Loop(f2, c, b2)
    ensures forall x :: x in Both(f, b, c, f2, b2, a) ==> x in Loop(f, a, b) || x in Loop(f2, c, b2)
  {
    var w, w2, v, v2 := Loop(f, a, b), Loop(f2, c, b2), Loop(f, c, b), Loop(f2, a, b2);
    assert forall y :: y in v ==> y == f || y == b || y in c;
    assert forall y :: y in v2 ==> y == f2 || y == b2 || y in a;
    assert forall y :: y in a ==> y in w;
    assert forall y :: y in c ==> y in w2;
  }

  /** Two arenas that link the rings `w` and `w2` the same way agree on
      every address, when they differ from one another only through an
      intermediate arena that kept every cell off those rings. */
  lemma SameCells(l0: map<Addr, Cell>, l1: map<Addr, Cell>, l2: map<Addr, Cell>, w: seq<Addr>, w2: seq<Addr>,
                  v: seq<Addr>, v2: seq<Addr>)
    requires Linked(l0, w) && Linked(l2, w) && Linked(l0, w2) && Linked(l2, w2)
    requires KeepsCells(l0, l1, v) && KeepsCells(l1, l2, v2)
    requires forall x :: x in v ==> x in w || x in w2
    requires forall x :: x in v2 ==> x in w || x in w2
    ensures forall x :: x in l0 ==> x in l2 && l2[x] == l0[x]
  {
    LinkedUnique(l2, l0, w);
    LinkedUnique(l2, l0, w2);
    forall x | x in l0 ensures x in l2 && l2[x] == l0[x] {
      if x in w {
        var i :| 0 <= i < |w| && w[i] == x;
      } else if x in w2 {
        var i :| 0 <= i < |w2| && w2[i] == x;
      }
    }
  }
}
