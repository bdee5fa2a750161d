/**
 * `dllist<T>`: the element count `size_` and the two sentinel members
 * `front_` and `back_`, which close the payload nodes into a ring
 * `[front_, n1, .., nk, back_]`.
 *
 * The sentinels live inside the list object, so their addresses are fixed
 * when the list is constructed; their cells, like every payload node's cell,
 * live in a node arena that several lists may share (which `swap` needs).
 * The ghost sequence `nodes` names the payload nodes in order.
 */
module Dllist {
  import opened XorPtr
  import opened Ring
  import opened Node
  import opened Cursor
  import opened Shape

  class DList<T> {
    var size: nat
    const front: Addr
    const back: Addr
    const heap: Arena<T>
    ghost var nodes: seq<Addr>

    /** The ring the list forms, read from `front_` towards `back_`. */
    ghost function Cycle(): seq<Addr>
      reads this
    {
      Loop(front, nodes, back)
    }

    /** The ring is linked and duplicate-free, `size_` counts its payload
        nodes, and exactly those carry data. */
    ghost predicate Valid()
      reads this, heap
    {
      Wf(heap.link, heap.datum, front, back, nodes) && size == |nodes|
    }

    /** The element sequence. */
    ghost function Elements(): seq<T>
      reads this, heap
      requires Valid()
    {
      Values(heap.datum, nodes)
    }

    /** `dllist()` for a list object whose sentinels sit at the unused
        addresses `f` and `b`: `front_(&back_, &back_)` and
        `back_(&front_, &front_)`, both the zero encoding. */
    constructor (heap: Arena<T>, f: Addr, b: Addr)
      requires heap.Valid() && f != b && f !in heap.link && b !in heap.link
      modifies heap
      ensures Valid() && this.heap == heap && front == f && back == b
      ensures nodes == [] && size == 0
      ensures heap.link == old(heap.link)[f := CellOf(b, b)][b := CellOf(f, f)]
      ensures heap.link[f] == NullCell() && heap.link[b] == NullCell()
      ensures heap.datum == old(heap.datum)
    {
      size, front, back, this.heap := 0, f, b, heap;
      nodes := [];
      new;
      heap.Place(f, b, b);
      heap.Place(b, f, f);
      SelfCreateIsNull(b);
      SelfCreateIsNull(f);
      assert LinkedAt(heap.link, Cycle(), 0) && LinkedAt(heap.link, Cycle(), 1);
    }

    /** `empty()`. */
    function Empty(): (r: bool)
      reads this, heap
      requires Valid()
      ensures r <==> Elements() == []
    {
      size == 0
    }

    /** `size()`. */
    function Size(): (r: nat)
      reads this, heap
      requires Valid()
      ensures r == |Elements()|
    {
      size
    }

    /** `front()`: the datum of the node `front_` unlocks with `&back_`. */
    function Front(): (r: T)
      reads this, heap
      requires Valid() && size > 0
      ensures r == Elements()[0]
    {
      assert LinkedAt(heap.link, Cycle(), 0);
      heap.Datum(heap.NextPtr(front, back))
    }

    /** `back()`: the datum of the node `back_` unlocks with `&front_`. */
    function Back(): (r: T)
      reads this, heap
      requires Valid() && size > 0
      ensures r == Elements()[size - 1]
    {
      assert LinkedAt(heap.link, Cycle(), size + 1);
      heap.Datum(heap.NextPtr(back, front))
    }

    /** `begin()`: `(&front_, front_.nextptr(&back_))`, the first position
        after `front_`. */
    function Begin(): (it: Iter)
      reads this, heap
      requires Valid()
      ensures it == At(Cycle(), 1)
    {
      assert LinkedAt(heap.link, Cycle(), 0);
      Iter(front, heap.NextPtr(front, back))
    }

    /** `end()`: `(back_.nextptr(&front_), &back_)`, the position of
        `back_`. */
    function End(): (it: Iter)
      reads this, heap
      requires Valid()
      ensures it == At(Cycle(), size + 1)
    {
      assert LinkedAt(heap.link, Cycle(), size + 1);
      Iter(heap.NextPtr(back, front), back)
    }

    /** `*it` (and `it->`): `nodeptr_->to_node().datum()`, the datum of the
        payload node the cursor designates; on this list that is the element
        at the cursor's position. */
    function Deref(it: Iter): (r: T)
      reads this, heap
      requires Valid() && it.nodeptr in heap.datum
      ensures forall j | 1 <= j <= size && Cycle()[j] == it.nodeptr :: r == Elements()[j - 1]
    {
      heap.Datum(it.nodeptr)
    }

    /** `begin()` reaches `end()` in exactly `size()` increments, meeting
        every element once and in order, and `begin() == end()` exactly when
        the list is empty. */
    lemma Traversal()
      requires Valid()
      ensures Advance(heap.link, Begin(), size) == End()
      ensures Visit(heap.link, Begin(), size) == nodes
      ensures Values(heap.datum, Visit(heap.link, Begin(), size)) == Elements()
      ensures forall k :: 0 <= k < size ==> !Equal(Advance(heap.link, Begin(), k), End())
      ensures Equal(Begin(), End()) <==> size == 0
    {
      var w := Cycle();
      AdvanceAt(heap.link, w, 1, size);
      assert w[1..1 + size] == nodes;
      forall k | 0 <= k < size
        ensures !Equal(Advance(heap.link, Begin(), k), End())
      {
        AdvanceAt(heap.link, w, 1, k);
        EqualAt(w, 1 + k, size + 1);
      }
      EqualAt(w, 1, size + 1);
    }

    /** `end()` reaches `begin()` in exactly `size()` decrements, meeting the
        elements in reverse order. */
    lemma ReverseTraversal()
      requires Valid()
      ensures Retreat(heap.link, End(), size) == Begin()
      ensures VisitBack(heap.link, End(), size) == Reverse(nodes)
    {
      var w := Cycle();
      RetreatAt(heap.link, w, size + 1, size);
      assert w[1..size + 1] == nodes;
    }

    /** `push_front(v)`: `insert(&back_, &front_, n)` links a new node
        holding `v`, at the fresh address `n`, between `front_` and the first
        node; `size_` goes up by one. */
    method PushFront(v: T, n: Addr)
      requires Valid() && n !in heap.link
      modifies this, heap
      ensures Valid()
      ensures nodes == [n] + old(nodes) && size == old(size) + 1
      ensures Elements() == [v] + old(Elements())
      ensures heap.link.Keys == old(heap.link.Keys) + {n}
      ensures heap.datum == old(heap.datum)[n := v]
      ensures KeepsCells(old(heap.link), heap.link, old(Cycle()))
    {
      SpliceFrontStep(heap.link, heap.datum, front, back, nodes, n, v);
      heap.New(n, v);
      var _ := heap.Insert(back, front, n);
      nodes := [n] + nodes;
      size := size + 1;
    }

    /** `push_back(v)`: `insert(&front_, &back_, n)` links the new node
        between the last node and `back_`. */
    method PushBack(v: T, n: Addr)
      requires Valid() && n !in heap.link
      modifies this, heap
      ensures Valid()
      ensures nodes == old(nodes) + [n] && size == old(size) + 1
      ensures Elements() == old(Elements()) + [v]
      ensures heap.link.Keys == old(heap.link.Keys) + {n}
      ensures heap.datum == old(heap.datum)[n := v]
      ensures KeepsCells(old(heap.link), heap.link, old(Cycle()))
    {
      SpliceLastStep(heap.link, heap.datum, front, back, nodes, n, v);
      heap.New(n, v);
      var _ := heap.Insert(front, back, n);
      nodes := nodes + [n];
      size := size + 1;
    }

    /** `pop_front()`, for a non-empty list: `remove(&back_, &front_)`
        unlinks the first node, whose storage is then released. */
    method PopFront()
      requires Valid() && size > 0
      modifies this, heap
      ensures Valid()
      ensures nodes == old(nodes)[1..] && size == old(size) - 1
      ensures Elements() == old(Elements())[1..]
      ensures heap.link.Keys == old(heap.link.Keys) - {old(nodes)[0]}
      ensures heap.datum == old(heap.datum) - {old(nodes)[0]}
      ensures KeepsCells(old(heap.link), heap.link, old(Cycle()))
    {
      DropFrontStep(heap.link, heap.datum, front, back, nodes);
      var gone := heap.Remove(back, front);
      heap.Delete(gone);
      nodes := nodes[1..];
      size := size - 1;
    }

    /** `pop_back()`, for a non-empty list: `remove(&front_, &back_)`
        unlinks the last node, whose storage is then released. */
    method PopBack()
      requires Valid() && size > 0
      modifies this, heap
      ensures Valid()
      ensures size == old(size) - 1 && nodes == old(nodes)[..size]
      ensures Elements() == old(Elements())[..size]
      ensures heap.link.Keys == old(heap.link.Keys) - {old(nodes)[size]}
      ensures heap.datum == old(heap.datum) - {old(nodes)[size]}
      ensures KeepsCells(old(heap.link), heap.link, old(Cycle()))
    {
      DropLastStep(heap.link, heap.datum, front, back, nodes);
      var gone := heap.Remove(front, back);
      heap.Delete(gone);
      size := size - 1;
      nodes := nodes[..size];
    }

    /** `emplace(pos, v)` at the position `j` of the ring (`1` is `begin()`,
        `size + 1` is `end()`): `--pos`, then `insert(pos.prevptr_,
        pos.nodeptr_, n)` links the new node just before the node `pos`
        designated; the result `iterator(newnode, nextnode)` designates that
        node again, one position further on. */
    method Emplace(pos: Iter, v: T, n: Addr, ghost j: nat) returns (r: Iter)
      requires Valid() && n !in heap.link
      requires 1 <= j <= size + 1 && pos == At(Cycle(), j)
      modifies this, heap
      ensures Valid()
      ensures nodes == old(nodes)[..j - 1] + [n] + old(nodes)[j - 1..] && size == old(size) + 1
      ensures Elements() == old(Elements())[..j - 1] + [v] + old(Elements())[j - 1..]
      ensures r == At(Cycle(), j + 1) && r.nodeptr == old(Cycle())[j]
      ensures heap.link.Keys == old(heap.link.Keys) + {n}
      ensures heap.datum == old(heap.datum)[n := v]
      ensures KeepsCells(old(heap.link), heap.link, old(Cycle()))
    {
      ghost var ns := nodes;
      var p, nextnode := Link(pos, v, n, j);
      SplicePositions(front, ns, back, j, n);
      r := Iter(n, nextnode);
    }

    /** What `emplace` and `insert` share: `--pos`, then `insert(pos.prevptr_,
        pos.nodeptr_, n)` links the new node `n` holding `v` after the node
        the retreated `pos` designates, at position `j` of the ring.
        Returns the retreated `pos` and the node that now follows `n`. */
    method Link(pos: Iter, v: T, n: Addr, ghost j: nat) returns (p: Iter, nextnode: Addr)
      requires Valid() && n !in heap.link
      requires 1 <= j <= size + 1 && pos == At(Cycle(), j)
      modifies this, heap
      ensures Valid()
      ensures nodes == old(nodes)[..j - 1] + [n] + old(nodes)[j - 1..] && size == old(size) + 1
      ensures Elements() == old(Elements())[..j - 1] + [v] + old(Elements())[j - 1..]
      ensures p == At(old(Cycle()), j - 1) && nextnode == old(Cycle())[j]
      ensures heap.link.Keys == old(heap.link.Keys) + {n}
      ensures heap.datum == old(heap.datum)[n := v]
      ensures KeepsCells(old(heap.link), heap.link, old(Cycle()))
    {
      ghost var w := Cycle();
      DecAt(heap.link, w, j);
      p := Dec(heap.link, pos);
      SpliceStep(heap.link, heap.datum, front, back, nodes, j - 1, n, v);
      assert j - 1 + 1 == j;
      heap.New(n, v);
      nextnode := heap.Insert(p.prevptr, p.nodeptr, n);
      nodes := nodes[..j - 1] + [n] + nodes[j - 1..];
      size := size + 1;
    }

    /** `emplace_front(v)`: `emplace(begin(), v)`. */
    method EmplaceFront(v: T, n: Addr)
      requires Valid() && n !in heap.link
      modifies this, heap
      ensures Valid()
      ensures nodes == [n] + old(nodes) && size == old(size) + 1
      ensures Elements() == [v] + old(Elements())
      ensures heap.link.Keys == old(heap.link.Keys) + {n}
      ensures heap.datum == old(heap.datum)[n := v]
      ensures KeepsCells(old(heap.link), heap.link, old(Cycle()))
    {
      ghost var ns, es := nodes, Elements();
      var _ := Emplace(Begin(), v, n, 1);
      assert ns[..0] + [n] + ns[0..] == [n] + ns;
      assert es[..0] + [v] + es[0..] == [v] + es;
    }

    /** `emplace_back(v)`: `emplace(end(), v)`. */
    method EmplaceBack(v: T, n: Addr)
      requires Valid() && n !in heap.link
      modifies this, heap
      ensures Valid()
      ensures nodes == old(nodes) + [n] && size == old(size) + 1
      ensures Elements() == old(Elements()) + [v]
      ensures heap.link.Keys == old(heap.link.Keys) + {n}
      ensures heap.datum == old(heap.datum)[n := v]
      ensures KeepsCells(old(heap.link), heap.link, old(Cycle()))
    {
      ghost var ns, es := nodes, Elements();
      var _ := Emplace(End(), v, n, size + 1);
      assert ns[..|ns|] + [n] + ns[|ns|..] == ns + [n];
      assert es[..|ns|] + [v] + es[|ns|..] == es + [v];
    }

    /** `insert(pos, value)`: the same splice as `emplace`, but the result
        is the retreated `pos`, which designates the node before the new
        one. */
    method Insert(pos: Iter, v: T, n: Addr, ghost j: nat) returns (r: Iter)
      requires Valid() && n !in heap.link
      requires 1 <= j <= size + 1 && pos == At(Cycle(), j)
      modifies this, heap
      ensures Valid()
      ensures nodes == old(nodes)[..j - 1] + [n] + old(nodes)[j - 1..] && size == old(size) + 1
      ensures Elements() == old(Elements())[..j - 1] + [v] + old(Elements())[j - 1..]
      ensures r == At(Cycle(), j - 1) && r.nodeptr == old(Cycle())[j - 1]
      ensures heap.link.Keys == old(heap.link.Keys) + {n}
      ensures heap.datum == old(heap.datum)[n := v]
      ensures KeepsCells(old(heap.link), heap.link, old(Cycle()))
    {
      ghost var ns := nodes;
      var nextnode;
      r, nextnode := Link(pos, v, n, j);
      SplicePositions(front, ns, back, j, n);
    }

    /** `erase(pos)` of the element at position `j` (`1 <= j <= size`):
        `--pos`, `remove(pos.prevptr_, pos.nodeptr_)`, `delete` the removed
        node, `++pos`; the result designates the erased node's successor. */
    method Erase(pos: Iter, ghost j: nat) returns (r: Iter)
      requires Valid() && 1 <= j <= size && pos == At(Cycle(), j)
      modifies this, heap
      ensures Valid()
      ensures nodes == old(nodes)[..j - 1] + old(nodes)[j..] && size == old(size) - 1
      ensures Elements() == old(Elements())[..j - 1] + old(Elements())[j..]
      ensures r == At(Cycle(), j) && r.nodeptr == old(Cycle())[j + 1]
      ensures heap.link.Keys == old(heap.link.Keys) - {old(nodes)[j - 1]}
      ensures heap.datum == old(heap.datum) - {old(nodes)[j - 1]}
      ensures KeepsCells(old(heap.link), heap.link, old(Cycle()))
    {
      EraseAt(heap.link, heap.datum, front, back, nodes, j, pos);
      var p := Dec(heap.link, pos);
      var oldnode := heap.Remove(p.prevptr, p.nodeptr);
      heap.Delete(oldnode);
      r := Inc(heap.link, p);
      nodes := nodes[..j - 1] + nodes[j..];
      size := size - 1;
    }

    /** `erase(first, last)` for `first` at position `i` and `last` at
        position `k` (`i <= k`): `first = erase(first)` until it equals
        `last`, which erases the elements from position `i` up to, not
        including, position `k`. */
    method EraseRange(first: Iter, last: Iter, ghost i: nat, ghost k: nat) returns (r: Iter)
      requires Valid() && 1 <= i <= k <= size + 1
      requires first == At(Cycle(), i) && last == At(Cycle(), k)
      modifies this, heap
      ensures Valid()
      ensures nodes == old(nodes)[..i - 1] + old(nodes)[k - 1..] && size == old(size) - (k - i)
      ensures Elements() == old(Elements())[..i - 1] + old(Elements())[k - 1..]
      ensures r == At(Cycle(), i) && Equal(r, last)
      ensures heap.link.Keys == old(heap.link.Keys) - Members(old(nodes)[i - 1..k - 1])
      ensures heap.datum == old(heap.datum) - Members(old(nodes)[i - 1..k - 1])
      ensures KeepsCells(old(heap.link), heap.link, old(Cycle()))
    {
      ghost var ns, es, a, g, gone := nodes, Elements(), i - 1, i - 1, {};
      ghost var l0, d0 := heap.link, heap.datum;
      ErasedStart(first, last, i, k);
      r := first;
      while !Equal(r, last)
        invariant ErasedSoFar(r, last, a, g, k, ns, es, gone, l0, d0)
        decreases k - g
      {
        r, g, gone := EraseRound(r, last, a, g, k, ns, es, gone, l0, d0);
      }
      ErasedEnd(r, last, a, g, i, k, ns, es, gone, l0, d0, old(size));
    }

    /** Before the first round of `erase(first, last)` nothing is erased. */
    lemma ErasedStart(first: Iter, last: Iter, i: nat, k: nat)
      requires Valid() && 1 <= i <= k <= size + 1
      requires first == At(Cycle(), i) && last == At(Cycle(), k)
      ensures ErasedSoFar(first, last, i - 1, i - 1, k, nodes, Elements(), {}, heap.link, heap.datum)
    {
      var ns, es := nodes, Elements();
      assert ns[i - 1..i - 1] == [] && ns[..i - 1] + ns[i - 1..] == ns && es[..i - 1] + es[i - 1..] == es;
    }

    /** Once `first` equals `last`, exactly the nodes from index `a` up to,
        not including, index `k - 1` are erased. */
    lemma ErasedEnd(r: Iter, last: Iter, a: nat, g: nat, i: nat, k: nat, ns: seq<Addr>, es: seq<T>,
                        gone: set<Addr>, l0: map<Addr, Cell>, d0: map<Addr, T>, n0: nat)
      requires ErasedSoFar(r, last, a, g, k, ns, es, gone, l0, d0) && Equal(r, last)
      requires a == i - 1 && n0 == |ns|
      ensures Valid() && size == n0 - (k - i)
      ensures nodes == ns[..i - 1] + ns[k - 1..] && Elements() == es[..i - 1] + es[k - 1..]
      ensures r == At(Cycle(), i)
      ensures heap.link.Keys == l0.Keys - Members(ns[i - 1..k - 1]) && heap.datum == d0 - Members(ns[i - 1..k - 1])
      ensures KeepsCells(l0, heap.link, Loop(front, ns, back))
    {
      GapIndex(front, ns, back, a, g, k);
      EqualAt(Cycle(), a + 1, a + k - g);
      assert g == k - 1;
    }

    /** `erase(first, last)` with the payload nodes `ns` (holding `es`,
        over the cells `l0` and data `d0`) from index `a` up to, not
        including, index `g` erased: `first` designates `ns[g]`, `last`
        designates the node it designated at the start, at ring position
        `k` then, and exactly the erased nodes are gone from the arena. */
    ghost predicate ErasedSoFar(r: Iter, last: Iter, a: nat, g: nat, k: nat, ns: seq<Addr>, es: seq<T>,
                                gone: set<Addr>, l0: map<Addr, Cell>, d0: map<Addr, T>)
      reads this, heap
    {
      && Valid() && a <= g < k <= |ns| + 1 && |es| == |ns| && size == |ns| - (g - a)
      && nodes == ns[..a] + ns[g..] && Elements() == es[..a] + es[g..]
      && r == At(Cycle(), a + 1) && last.nodeptr == Loop(front, ns, back)[k]
      && gone == Members(ns[a..g])
      && heap.link.Keys == l0.Keys - gone && heap.datum == d0 - gone
      && KeepsCells(l0, heap.link, Loop(front, ns, back))
    }

    /** One round of `erase(first, last)`: `first = erase(first)`. */
    method EraseRound(r: Iter, last: Iter, ghost a: nat, ghost g: nat, ghost k: nat, ghost ns: seq<Addr>,
                      ghost es: seq<T>, ghost gone: set<Addr>, ghost l0: map<Addr, Cell>, ghost d0: map<Addr, T>)
      returns (r2: Iter, ghost g2: nat, ghost gone2: set<Addr>)
      requires ErasedSoFar(r, last, a, g, k, ns, es, gone, l0, d0) && !Equal(r, last)
      modifies this, heap
      ensures g < g2 < k && ErasedSoFar(r2, last, a, g2, k, ns, es, gone2, l0, d0)
    {
      GapIndex(front, ns, back, a, g, k);
      EqualAt(Cycle(), a + 1, a + k - g);
      ghost var l1, d1, cur := heap.link, heap.datum, nodes;
      EraseStep(front, ns, back, es, a, g);
      ghost var x := cur[a];
      r2 := Erase(r, a + 1);
      Forget(l0, d0, l1, d1, heap.link, heap.datum, Loop(front, ns, back), Loop(front, cur, back), gone, x);
      g2, gone2 := g + 1, gone + {x};
    }

    /** `clear()`: `pop_back()` until `empty()`.  Both sentinel cells end up
        holding the zero encoding again. */
    method Clear()
      requires Valid()
      modifies this, heap
      ensures Valid() && nodes == [] && size == 0 && Elements() == []
      ensures front in heap.link && back in heap.link
      ensures heap.link[front] == NullCell() && heap.link[back] == NullCell()
      ensures heap.link.Keys == old(heap.link.Keys) - Members(old(nodes))
      ensures heap.datum == old(heap.datum) - Members(old(nodes))
      ensures KeepsCells(old(heap.link), heap.link, old(Cycle()))
    {
      ghost var ns, gone, l0, d0 := nodes, {}, heap.link, heap.datum;
      ClearedStart();
      while !Empty()
        invariant ClearedSoFar(ns, gone, l0, d0)
        decreases size
      {
        gone := ClearRound(ns, gone, l0, d0);
      }
      ClearedEnd(ns, gone, l0, d0);
    }

    /** `clear()` with the nodes of `ns`, held over the cells `l0` and data
        `d0` at the start, popped from the back until `size` remain: exactly
        the popped nodes are gone from the arena. */
    ghost predicate ClearedSoFar(ns: seq<Addr>, gone: set<Addr>, l0: map<Addr, Cell>, d0: map<Addr, T>)
      reads this, heap
    {
      && Valid() && size <= |ns| && nodes == ns[..size]
      && gone == Members(ns[size..])
      && heap.link.Keys == l0.Keys - gone && heap.datum == d0 - gone
      && KeepsCells(l0, heap.link, Loop(front, ns, back))
    }

    /** Before the first `pop_back()` nothing is gone. */
    lemma ClearedStart()
      requires Valid()
      ensures ClearedSoFar(nodes, {}, heap.link, heap.datum)
    {
      var ns := nodes;
      assert ns[|ns|..] == [] && ns[..size] == ns;
    }

    /** One round of `clear()`: `pop_back()`. */
    method ClearRound(ghost ns: seq<Addr>, ghost gone: set<Addr>, ghost l0: map<Addr, Cell>, ghost d0: map<Addr, T>)
      returns (ghost gone2: set<Addr>)
      requires ClearedSoFar(ns, gone, l0, d0) && size > 0
      modifies this, heap
      ensures ClearedSoFar(ns, gone2, l0, d0) && size < old(size)
    {
      ghost var l1, x := heap.link, ns[size - 1];
      ClearStep(front, ns, back, size);
      ForgetOne(l0.Keys, gone, x);
      ForgetOneMap(d0, gone, x);
      PopBack();
      KeepsCellsTrans(l0, l1, heap.link, Loop(front, ns, back), Loop(front, ns[..size + 1], back));
      gone2 := gone + {x};
    }

    /** Once the list is empty every node of `ns` is gone and both
        sentinel cells hold the zero encoding. */
    lemma ClearedEnd(ns: seq<Addr>, gone: set<Addr>, l0: map<Addr, Cell>, d0: map<Addr, T>)
      requires ClearedSoFar(ns, gone, l0, d0) && size == 0
      ensures Valid() && nodes == [] && Elements() == []
      ensures front in heap.link && back in heap.link
      ensures heap.link[front] == NullCell() && heap.link[back] == NullCell()
      ensures heap.link.Keys == l0.Keys - Members(ns) && heap.datum == d0 - Members(ns)
      ensures KeepsCells(l0, heap.link, Loop(front, ns, back))
    {
      assert ns[0..] == ns;
      assert LinkedAt(heap.link, Cycle(), 0) && LinkedAt(heap.link, Cycle(), 1);
      SelfCreateIsNull(back);
      SelfCreateIsNull(front);
    }

    /** `insert(pos, first, last)` as it was evidently meant: the values
        `vs`, held by new nodes at the fresh addresses `ns`, go in front of
        `pos` (at ring position `j`) in their own order.  Each step is
        `pos = emplace(pos, v)`, whose result designates the node `pos`
        designated before, one place further on. */
    method InsertRange(pos: Iter, vs: seq<T>, ns: seq<Addr>, ghost j: nat)
      requires Valid() && 1 <= j <= size + 1 && pos == At(Cycle(), j)
      requires |ns| == |vs| && Distinct(ns)
      requires forall k :: 0 <= k < |ns| ==> ns[k] !in heap.link
      modifies this, heap
      ensures Valid()
      ensures nodes == old(nodes)[..j - 1] + ns + old(nodes)[j - 1..] && size == old(size) + |vs|
      ensures Elements() == old(Elements())[..j - 1] + vs + old(Elements())[j - 1..]
      ensures heap.link.Keys == old(heap.link.Keys) + Members(ns)
      ensures KeepsCells(old(heap.link), heap.link, old(Cycle()))
    {
      ghost var ns0, es0, l0 := nodes, Elements(), heap.link;
      PlacedStart(pos, vs, ns, j);
      var p, i := pos, 0;
      while i < |vs|
        invariant PlacedSoFar(p, vs, ns, i, j, ns0, es0, l0)
      {
        p := PlaceRound(p, vs, ns, i, j, ns0, es0, l0);
        assert PlacedSoFar(p, vs, ns, i + 1, j, ns0, es0, l0);
        i := i + 1;
      }
      PlacedEnd(p, vs, ns, i, j, ns0, es0, l0, old(size));
    }

    /** The range insert after `i` rounds, started on the list with payload
        nodes `ns0` holding `es0` over the cells `l0`: the first `i` values
        stand before what `pos` designated, `pos` still designates it, and
        the first `i` new nodes are allocated and linked without touching
        any cell outside the starting ring. */
    ghost predicate PlacedSoFar(p: Iter, vs: seq<T>, ns: seq<Addr>, i: nat, j: nat,
                             ns0: seq<Addr>, es0: seq<T>, l0: map<Addr, Cell>)
      reads this, heap
    {
      && Valid() && Placed(vs, ns, i, j, ns0, es0, l0, nodes, Elements(), heap.link, front, back)
      && p == At(Cycle(), j + i)
    }

    /** Before the first round of the range insert nothing is inserted. */
    lemma PlacedStart(pos: Iter, vs: seq<T>, ns: seq<Addr>, j: nat)
      requires Valid() && 1 <= j <= size + 1 && pos == At(Cycle(), j)
      requires |ns| == |vs| && Distinct(ns)
      requires forall k :: 0 <= k < |ns| ==> ns[k] !in heap.link
      ensures PlacedSoFar(pos, vs, ns, 0, j, nodes, Elements(), heap.link)
    {
      assert ns[..0] == [] && Members(ns[..0]) == {};
      assert nodes[..j - 1] + ns[..0] + nodes[j - 1..] == nodes;
      assert Elements()[..j - 1] + vs[..0] + Elements()[j - 1..] == Elements();
    }

    /** Round `i` of the range insert: `pos = emplace(pos, vs[i])`. */
    method PlaceRound(p: Iter, vs: seq<T>, ns: seq<Addr>, i: nat, ghost j: nat,
                         ghost ns0: seq<Addr>, ghost es0: seq<T>, ghost l0: map<Addr, Cell>) returns (r: Iter)
      requires i < |vs| && PlacedSoFar(p, vs, ns, i, j, ns0, es0, l0)
      modifies this, heap
      ensures PlacedSoFar(r, vs, ns, i + 1, j, ns0, es0, l0)
    {
      ghost var cur, ec, l1 := nodes, Elements(), heap.link;
      PlacedFresh(vs, ns, i, j, ns0, es0, l0, cur, ec, l1, front, back);
      r := Emplace(p, vs[i], ns[i], j + i);
      PlacedStep(vs, ns, i, j, ns0, es0, l0, cur, ec, l1, front, back, nodes, Elements(), heap.link);
      assert j + i + 1 == j + (i + 1);
    }

    /** After the last round the values stand, in order, before what `pos`
        designated at the start. */
    lemma PlacedEnd(p: Iter, vs: seq<T>, ns: seq<Addr>, i: nat, j: nat,
                      ns0: seq<Addr>, es0: seq<T>, l0: map<Addr, Cell>, n0: nat)
      requires PlacedSoFar(p, vs, ns, i, j, ns0, es0, l0) && i == |vs| && n0 == |ns0|
      ensures Valid() && size == n0 + |vs|
      ensures nodes == ns0[..j - 1] + ns + ns0[j - 1..] && Elements() == es0[..j - 1] + vs + es0[j - 1..]
      ensures heap.link.Keys == l0.Keys + Members(ns)
      ensures KeepsCells(l0, heap.link, Loop(front, ns0, back))
    {
      assert Later(0);
      assert ns[..i] == ns && vs[..i] == vs;
    }

    /** `insert(pos, first, last)` as written: `pos = insert(pos, *first)`
        for each value.  As `insert` returns the retreated `pos`, each value
        goes in one position further back than the one before, between the
        nodes already there; `pos` must not pass `begin()`, so at most `j`
        values are inserted. */
    method InsertRangeAsWritten(pos: Iter, vs: seq<T>, ns: seq<Addr>, ghost j: nat)
      requires Valid() && 1 <= j <= size + 1 && pos == At(Cycle(), j)
      requires |ns| == |vs| <= j && Distinct(ns)
      requires forall k :: 0 <= k < |ns| ==> ns[k] !in heap.link
      modifies this, heap
      ensures Valid()
      ensures nodes == Retreating(old(nodes), j, ns) && size == old(size) + |vs|
      ensures Elements() == Retreating(old(Elements()), j, vs)
      ensures heap.link.Keys == old(heap.link.Keys) + Members(ns)
      ensures KeepsCells(old(heap.link), heap.link, old(Cycle()))
    {
      ghost var ns0, es0, l0 := nodes, Elements(), heap.link;
      RetreatStart(pos, vs, ns, j);
      var p, i := pos, 0;
      while i < |vs|
        invariant RetreatedSoFar(p, vs, ns, i, j, ns0, es0, l0)
      {
        p := RetreatRound(p, vs, ns, i, j, ns0, es0, l0);
        assert RetreatedSoFar(p, vs, ns, i + 1, j, ns0, es0, l0);
        i := i + 1;
      }
      RetreatEnd(p, vs, ns, i, j, ns0, es0, l0, old(size));
    }

    /** Before the first round of the range insert nothing is inserted. */
    lemma RetreatStart(pos: Iter, vs: seq<T>, ns: seq<Addr>, j: nat)
      requires Valid() && 1 <= j <= size + 1 && pos == At(Cycle(), j)
      requires |ns| == |vs| <= j && Distinct(ns)
      requires forall k :: 0 <= k < |ns| ==> ns[k] !in heap.link
      ensures RetreatedSoFar(pos, vs, ns, 0, j, nodes, Elements(), heap.link)
    {
      assert ns[..0] == [] && ns[0..] == ns && vs[0..] == vs;
      assert Members(ns[..0]) == {};
    }

    /** After the last round the list is the retreating interleaving of
        the new nodes into the old ones. */
    lemma RetreatEnd(p: Iter, vs: seq<T>, ns: seq<Addr>, i: nat, j: nat,
                         ns0: seq<Addr>, es0: seq<T>, l0: map<Addr, Cell>, n0: nat)
      requires RetreatedSoFar(p, vs, ns, i, j, ns0, es0, l0) && i == |vs| && n0 == |ns0|
      ensures Valid() && size == n0 + |vs|
      ensures nodes == Retreating(ns0, j, ns) && Elements() == Retreating(es0, j, vs)
      ensures heap.link.Keys == l0.Keys + Members(ns)
      ensures KeepsCells(l0, heap.link, Loop(front, ns0, back))
    {
      assert ns[i..] == [] && vs[i..] == [];
      assert ns[..i] == ns;
    }

    /** The range insert as written after `i` rounds, started on the list
        with payload nodes `ns0` holding `es0` over the cells `l0`: `pos`
        has retreated `i` places from ring position `j`, the rounds still
        to come would bring the list to the final one, and the first `i`
        new nodes are allocated and linked without touching any cell
        outside the starting ring. */
    ghost predicate RetreatedSoFar(p: Iter, vs: seq<T>, ns: seq<Addr>, i: nat, j: nat,
                                ns0: seq<Addr>, es0: seq<T>, l0: map<Addr, Cell>)
      reads this, heap
    {
      && i <= |vs| == |ns| <= j <= |ns0| + 1 && |es0| == |ns0| && Distinct(ns)
      && (forall k :: 0 <= k < |ns| ==> ns[k] !in l0)
      && Valid() && size == |ns0| + i && p == At(Cycle(), j - i)
      && Retreating(nodes, j - i, ns[i..]) == Retreating(ns0, j, ns)
      && Retreating(Elements(), j - i, vs[i..]) == Retreating(es0, j, vs)
      && Members(nodes) == Members(ns0) + Members(ns[..i])
      && heap.link.Keys == l0.Keys + Members(ns[..i])
      && KeepsCells(l0, heap.link, Loop(front, ns0, back))
    }

    /** Round `i` of the range insert as written: `pos = insert(pos, vs[i])`
        at ring position `j - i`. */
    method RetreatRound(p: Iter, vs: seq<T>, ns: seq<Addr>, i: nat, ghost j: nat,
                       ghost ns0: seq<Addr>, ghost es0: seq<T>, ghost l0: map<Addr, Cell>) returns (r: Iter)
      requires i < |vs| && RetreatedSoFar(p, vs, ns, i, j, ns0, es0, l0)
      modifies this, heap
      ensures RetreatedSoFar(r, vs, ns, i + 1, j, ns0, es0, l0)
    {
      ghost var l1, cur, ec := heap.link, nodes, Elements();
      r := Insert(p, vs[i], ns[i], j - i);
      assert j - i - 1 == j - (i + 1) && size == |ns0| + (i + 1);
      Retreated(ns0, cur, nodes, ns, es0, ec, Elements(), vs, i, j);
      Allocated(l0, l1, heap.link, front, back, ns0, cur, ns, i, j - i - 1);
    }

    /** One side of `swap(l)` (the list with sentinels `f`, `b`, `n` payload
        nodes `ns`, going behind the sentinels `f2`, `b2`): for `n == 0`
        the sentinels are pointed at each other's counterparts; for
        `n == 1` the sentinels and the element; otherwise the sentinels and
        the first and last nodes, whose neighbours are read first. */
    method FixUp(n: nat, f: Addr, b: Addr, ghost ns: seq<Addr>, f2: Addr, b2: Addr)
      requires Linked(heap.link, Loop(f, ns, b)) && n == |ns|
      modifies heap
      ensures f in old(heap.link) && b in old(heap.link)
      ensures forall i :: 0 <= i < |ns| ==> ns[i] in old(heap.link)
      ensures heap.link == Retarget(old(heap.link), f, b, ns, f2, b2)
      ensures heap.datum == old(heap.datum)
    {
      RingEnds(heap.link, f, b, ns);
      if n == 0 {
        heap.SetPtr(f, b2, b2);
        heap.SetPtr(b, f2, f2);
      } else if n == 1 {
        var element := heap.NextPtr(f, b);
        assert element == ns[0];
        heap.SetPtr(f, b2, element);
        heap.SetPtr(b, element, f2);
        heap.SetPtr(element, b2, f2);
      } else {
        var first := heap.NextPtr(f, b);
        var second := heap.NextPtr(first, f);
        var last := heap.NextPtr(b, f);
        var before_last := heap.NextPtr(last, b);
        assert first == ns[0] && second == ns[1] && last == ns[n - 1] && before_last == ns[n - 2];
        heap.SetPtr(f, b2, first);
        heap.SetPtr(b, f2, last);
        heap.SetPtr(first, f2, second);
        heap.SetPtr(last, b2, before_last);
      }
    }

    /** The arena side of `swap`: fix up both rings, then exchange the two
        pairs of sentinel cells.  The arena ends up as `Swapped` says. */
    method SwapRings(n: nat, f: Addr, b: Addr, ghost a: seq<Addr>, n2: nat, f2: Addr, b2: Addr, ghost c: seq<Addr>)
      requires Pair(heap.link, heap.datum, f, b, a, f2, b2, c) && n == |a| && n2 == |c|
      modifies heap
      ensures f in old(heap.link) && b in old(heap.link) && f2 in old(heap.link) && b2 in old(heap.link)
      ensures forall i :: 0 <= i < |a| ==> a[i] in old(heap.link)
      ensures forall i :: 0 <= i < |c| ==> c[i] in old(heap.link)
      ensures f != b && f2 != b2 && f != f2 && f != b2 && b != f2 && b != b2
      ensures heap.link == Swapped(old(heap.link), f, b, a, f2, b2, c)
      ensures heap.datum == old(heap.datum)
    {
      ghost var l0 := heap.link;
      SwappedPair(heap.link, heap.datum, f, b, a, f2, b2, c);
      FixUp(n, f, b, a, f2, b2);
      RetargetSpec(l0, f, b, a, f2, b2);
      KeptLinked(l0, heap.link, Loop(f2, c, b2), Loop(f, a, b));
      FixUp(n2, f2, b2, c, f, b);
      heap.SwapPtr(f, f2);
      heap.SwapPtr(b, b2);
    }

    /** `swap(l)` for a list `l` in the same arena whose ring shares no
        address with this one: both fix-ups, then `front_.swap(l.front_)`,
        `back_.swap(l.back_)` and the exchange of the sizes.  The two lists
        trade elements and sizes, and each ring again names only its own
        sentinels. */
    method Swap(l: DList<T>)
      requires Valid() && l.Valid() && l.heap == heap
      requires forall x :: x in Cycle() ==> x !in l.Cycle()
      modifies this, l, heap
      ensures Valid() && l.Valid()
      ensures nodes == old(l.nodes) && l.nodes == old(nodes)
      ensures size == old(l.size) && l.size == old(size)
      ensures Elements() == old(l.Elements()) && l.Elements() == old(Elements())
      ensures forall x :: x in Cycle() ==> x !in l.Cycle()
      ensures heap.link.Keys == old(heap.link.Keys)
      ensures KeepsCells(old(heap.link), heap.link, Both(front, back, old(nodes), l.front, l.back, old(l.nodes)))
      ensures heap.datum == old(heap.datum)
    {
      ghost var a, c := nodes, l.nodes;
      assert Cycle() == Loop(front, a, back) && l.Cycle() == Loop(l.front, c, l.back);
      SwappedPair(heap.link, heap.datum, front, back, a, l.front, l.back, c);
      assert l != this by { assert front in Cycle(); }
      SwapRings(size, front, back, a, l.size, l.front, l.back, c);
      size, l.size := l.size, size;
      nodes, l.nodes := c, a;
    }
  }
  /** `erase(pos)` on a well-formed list, stated on the values its steps
      compute: the cursor stepped back, the node `remove` unlinks and the
      cursor stepped forward again. */
  lemma EraseAt<T>(link: map<Addr, Cell>, datum: map<Addr, T>, f: Addr, b: Addr, ns: seq<Addr>, j: nat, pos: Iter)
    requires Wf(link, datum, f, b, ns) && 1 <= j <= |ns| && pos == At(Loop(f, ns, b), j)
    ensures pos.prevptr in link
    ensures var p, x := Dec(link, pos), ns[j - 1];
      && p.nodeptr in link && Xor(link[p.nodeptr], p.prevptr) == x
      && x in link && Xor(link[x], p.nodeptr) in link
      && var l, ns' := Removed(link, p.prevptr, p.nodeptr) - {x}, ns[..j - 1] + ns[j..];
        && Wf(l, datum - {x}, f, b, ns')
        && Values(datum - {x}, ns') == Values(datum, ns)[..j - 1] + Values(datum, ns)[j..]
        && l.Keys == link.Keys - {x}
        && KeepsCells(link, l, Loop(f, ns, b))
        && p.nodeptr in l && Inc(l, p) == At(Loop(f, ns', b), j)
        && Inc(l, p).nodeptr == Loop(f, ns, b)[j + 1]
  {
    var w, k := Loop(f, ns, b), j - 1;
    DecAt(link, w, j);
    assert Prev(|w|, j) == k;
    var p := Dec(link, pos);
    assert p.prevptr == w[Prev(|w|, k)] && p.nodeptr == w[k];
    DropStep(link, datum, f, b, ns, k);
    var l, ns' := Removed(link, w[Prev(|w|, k)], w[k]) - {ns[k]}, ns[..k] + ns[k + 1..];
    var w' := Loop(f, ns', b);
    assert Linked(l, w');
    DroppedPlaces(f, ns, b, k);
    IncAt(l, w', k);
  }

  /** Positions around the payload node at index `k` once it is dropped:
      the positions before it keep their addresses and the next one is its
      old successor. */
  lemma DroppedPlaces(f: Addr, ns: seq<Addr>, b: Addr, k: nat)
    requires k < |ns|
    ensures var w, w' := Loop(f, ns, b), Loop(f, ns[..k] + ns[k + 1..], b);
      && |w'| == |w| - 1
      && w'[k] == w[k] && w'[Prev(|w'|, k)] == w[Prev(|w|, k)]
      && Next(|w'|, k) == k + 1 && w'[k + 1] == w[k + 2]
  {
    var w, w' := Loop(f, ns, b), Loop(f, ns[..k] + ns[k + 1..], b);
    if k > 0 {
      assert w'[k] == ns[k - 1] && w'[k - 1] == w[k - 1];
    }
    if k + 1 < |ns| {
      assert w'[k + 1] == ns[k + 1];
    }
  }

  /** One more node released on top of the nodes `gone`: the cells and data
      of the arena are those of the start less `gone + {x}`, and the cells
      outside the starting ring `w0` are still as they were. */
  lemma Forget<T>(l0: map<Addr, Cell>, d0: map<Addr, T>, l1: map<Addr, Cell>, d1: map<Addr, T>,
                  l2: map<Addr, Cell>, d2: map<Addr, T>, w0: seq<Addr>, w1: seq<Addr>, gone: set<Addr>, x: Addr)
    requires l1.Keys == l0.Keys - gone && d1 == d0 - gone && KeepsCells(l0, l1, w0)
    requires l2.Keys == l1.Keys - {x} && d2 == d1 - {x} && KeepsCells(l1, l2, w1)
    requires forall y :: y in w1 ==> y in w0
    ensures l2.Keys == l0.Keys - (gone + {x}) && d2 == d0 - (gone + {x})
    ensures KeepsCells(l0, l2, w0)
  {
    ForgetOne(l0.Keys, gone, x);
    ForgetOneMap(d0, gone, x);
    KeepsCellsTrans(l0, l1, l2, w0, w1);
  }

  /** Forgetting one more address. */
  lemma ForgetOne(keys: set<Addr>, gone: set<Addr>, x: Addr)
    ensures keys - gone - {x} == keys - (gone + {x})
  {
  }

  /** Forgetting one more key of a map. */
  lemma ForgetOneMap<T>(m: map<Addr, T>, gone: set<Addr>, x: Addr)
    ensures m - gone - {x} == m - (gone + {x})
  {
  }

  /** With the payload nodes from index `a` up to `g` gone, the ring
      position `k` past the gap has moved `g - a` places down. */
  lemma GapIndex(f: Addr, ns: seq<Addr>, b: Addr, a: nat, g: nat, k: nat)
    requires a <= g < k <= |ns| + 1
    ensures Loop(f, ns[..a] + ns[g..], b)[a + k - g] == Loop(f, ns, b)[k]
  {
    if k <= |ns| {
      assert Loop(f, ns[..a] + ns[g..], b)[a + k - g] == ns[k - 1];
    }
  }

  /** Past the dropped payload node at index `a`, each ring position moves
      one place down. */
  lemma DroppedShift(f: Addr, ns: seq<Addr>, b: Addr, a: nat, q: nat)
    requires a + 1 < q < |ns| + 2
    ensures Loop(f, ns[..a] + ns[a + 1..], b)[q - 1] == Loop(f, ns, b)[q]
  {
    if q < |ns| + 1 {
      assert Loop(f, ns[..a] + ns[a + 1..], b)[q - 1] == ns[q - 1];
    }
  }

  /** One `pop_back()` of `clear()` on the first `s` of the nodes `ns`. */
  lemma ClearStep(f: Addr, ns: seq<Addr>, b: Addr, s: nat)
    requires 0 < s <= |ns|
    ensures ns[..s][..s - 1] == ns[..s - 1] && ns[..s][s - 1] == ns[s - 1]
    ensures Members(ns[s - 1..]) == Members(ns[s..]) + {ns[s - 1]}
    ensures forall x :: x in Loop(f, ns[..s], b) ==> x in Loop(f, ns, b)
  {
    assert ns[s - 1..] == [ns[s - 1]] + ns[s..];
    MembersCons(ns[s..], ns[s - 1]);
    GapLoop(f, ns, b, s, |ns|);
    assert ns[..s] + ns[|ns|..] == ns[..s];
  }

  /** Erasing the next node after a gap of `d` widens the gap by one. */
  lemma GapStep<X>(s: seq<X>, a: nat, d: nat)
    requires a + d < |s|
    ensures var t := s[..a] + s[a + d..];
      t[..a] + t[a + 1..] == s[..a] + s[a + d + 1..]
  {
    var t := s[..a] + s[a + d..];
    assert t[..a] == s[..a];
    assert t[a + 1..] == s[a + d + 1..];
  }

  /** One `erase(first)` of the range erase, with the nodes from index `a`
      up to `g` already gone. */
  lemma EraseStep<T>(f: Addr, ns: seq<Addr>, b: Addr, es: seq<T>, a: nat, g: nat)
    requires a <= g < |ns| && |es| == |ns|
    ensures var t := ns[..a] + ns[g..];
      && a < |t| && t[a] == ns[g]
      && t[..a] + t[a + 1..] == ns[..a] + ns[g + 1..]
    ensures var u := es[..a] + es[g..];
      u[..a] + u[a + 1..] == es[..a] + es[g + 1..]
    ensures Members(ns[a..g + 1]) == Members(ns[a..g]) + {ns[g]}
    ensures forall x :: x in Loop(f, ns[..a] + ns[g..], b) ==> x in Loop(f, ns, b)
  {
    GapStep(ns, a, g - a);
    GapStep(es, a, g - a);
    assert ns[a..g + 1] == ns[a..g] + [ns[g]];
    MembersSnoc(ns[a..g], ns[g]);
    GapLoop(f, ns, b, a, g);
  }

  /** Positions in the ring once `n` is linked in at position `j`: the new
      node is there, the position before it is unchanged and the node that
      was at position `j` follows it. */
  lemma SplicePositions(f: Addr, ns: seq<Addr>, b: Addr, j: nat, n: Addr)
    requires 1 <= j <= |ns| + 1
    ensures var w, w2 := Loop(f, ns, b), Loop(f, ns[..j - 1] + [n] + ns[j - 1..], b);
      && j + 1 < |w2| && j < |w|
      && At(w2, j + 1) == Iter(n, w[j]) && At(w2, j - 1) == At(w, j - 1)
  {
    var w := Loop(f, ns, b);
    SplicedLoop(f, ns, b, j - 1, n);
    assert w[..j] + [n] + w[j..] == Loop(f, ns[..j - 1] + [n] + ns[j - 1..], b);
  }

  /** Values `xs` listed at index `k` of `s`, with the first `i` in place,
      take one more. */
  lemma Grow<X>(s: seq<X>, xs: seq<X>, k: nat, i: nat)
    requires k <= |s| && i < |xs|
    ensures var t := s[..k] + xs[..i] + s[k..];
      && k + i <= |t|
      && t[..k + i] + [xs[i]] + t[k + i..] == s[..k] + xs[..i + 1] + s[k..]
  {
    var t := s[..k] + xs[..i] + s[k..];
    assert t[..k + i] == s[..k] + xs[..i];
    assert t[k + i..] == s[k..];
    assert xs[..i + 1] == xs[..i] + [xs[i]];
  }

  /** A step that keeps every cell outside the ring `w1` keeps every cell
      outside `w0` too, when `w1` adds to `w0` only addresses `added` that
      were not allocated at the start. */
  lemma KeepsCellsGrow(l0: map<Addr, Cell>, l1: map<Addr, Cell>, l2: map<Addr, Cell>, w0: seq<Addr>, w1: seq<Addr>, added: seq<Addr>)
    requires KeepsCells(l0, l1, w0) && KeepsCells(l1, l2, w1)
    requires forall x :: x in w1 ==> x in w0 || x in added
    requires forall x :: x in added ==> x !in l0
    ensures KeepsCells(l0, l2, w0)
  {
  }

  /** The list `s` after `insert(pos, first, last)` as written, with `pos`
      at ring position `j`: the first value goes in at index `j - 1`, the
      next one at index `j - 2`, and so on. */
  function Retreating<X>(s: seq<X>, j: nat, xs: seq<X>): (r: seq<X>)
    requires |xs| <= j <= |s| + 1
    ensures |r| == |s| + |xs|
    decreases xs
  {
    if xs == [] then s
    else Retreating(s[..j - 1] + [xs[0]] + s[j - 1..], j - 1, xs[1..])
  }

  /** The insertions of `Retreating` all stay in front of index `j - 1`. */
  lemma {:induction false} RetreatingPrefix<X>(p: seq<X>, q: seq<X>, j: nat, xs: seq<X>)
    requires |xs| <= j <= |p| + 1
    ensures Retreating(p + q, j, xs) == Retreating(p, j, xs) + q
    decreases xs
  {
    if xs != [] {
      var p' := p[..j - 1] + [xs[0]] + p[j - 1..];
      assert (p + q)[..j - 1] + [xs[0]] + (p + q)[j - 1..] == p' + q;
      RetreatingPrefix(p', q, j - 1, xs[1..]);
    }
  }

  /** `insert(pos, first, last)` as written puts the first value of the
      range after all the others: the range comes out in reverse order,
      with old elements in between. */
  lemma RetreatingFirstLast<X>(s: seq<X>, j: nat, x: X, xs: seq<X>)
    requires 1 <= j <= |s| + 1 && |xs| + 1 <= j
    ensures Retreating(s, j, [x] + xs) == Retreating(s[..j - 1], j - 1, xs) + [x] + s[j - 1..]
  {
    assert ([x] + xs)[1..] == xs;
    assert s[..j - 1] + [x] + s[j - 1..] == s[..j - 1] + ([x] + s[j - 1..]);
    RetreatingPrefix(s[..j - 1], [x] + s[j - 1..], j - 1, xs);
  }

  /** On the one-element list `[0]`, inserting the range `[1, 2]` at
      `end()` as written gives `[2, 0, 1]`, not `[0, 1, 2]`. */
  lemma InsertRangeReorders()
    ensures Retreating([0], 2, [1, 2]) == [2, 0, 1]
    ensures Retreating([0], 2, [1, 2]) != [0] + [1, 2]
  {
    assert [0][..1] + [1] + [0][1..] == [0, 1];
    assert [1, 2][1..] == [2];
    assert [0, 1][..0] + [2] + [0, 1][0..] == [2, 0, 1];
    assert [2][1..] == [];
    assert ([0] + [1, 2])[0] == 0;
  }

  /** After a single insert before position `j` of the old ring, the new
      node sits at position `j` of the new ring `w` and the node `pos`
      designated at `j + 1`. The cursor `insert` returns (`j - 1`) is
      equal to neither, while the one `emplace` returns (`j + 1`) is equal
      to the node `pos` designated. */
  lemma InsertResultMissesPos(w: seq<Addr>, j: nat)
    requires Distinct(w) && 1 <= j && j + 1 < |w|
    ensures !Equal(At(w, j - 1), At(w, j)) && !Equal(At(w, j - 1), At(w, j + 1))
    ensures Equal(At(w, j + 1), Iter(w[j], w[j + 1]))
  {
    EqualAt(w, j - 1, j);
    EqualAt(w, j - 1, j + 1);
  }

  /** One step of `Retreating`, with the first `i` values already in. */
  lemma RetreatingStep<X>(cur: seq<X>, j: nat, xs: seq<X>, i: nat)
    requires i < |xs| && |xs| - i <= j <= |cur| + 1
    ensures Retreating(cur, j, xs[i..]) == Retreating(cur[..j - 1] + [xs[i]] + cur[j - 1..], j - 1, xs[i + 1..])
  {
    assert xs[i..][0] == xs[i] && xs[i..][1..] == xs[i + 1..];
  }

  /** The range insert after `i` rounds, on values: the list that held
      the payload nodes `ns0` with the values `es0` over the cells `l0` now
      holds the nodes `cur` with the values `ec` over the cells `l1`, the
      first `i` new nodes and values spliced in at index `j - 1`, and no
      cell outside the starting ring `[f] + ns0 + [b]` has changed. */
  ghost predicate Placed<T>(vs: seq<T>, ns: seq<Addr>, i: nat, j: nat, ns0: seq<Addr>, es0: seq<T>, l0: map<Addr, Cell>,
                            cur: seq<Addr>, ec: seq<T>, l1: map<Addr, Cell>, f: Addr, b: Addr)
  {
    && i <= |vs| == |ns| && 1 <= j <= |ns0| + 1 && |es0| == |ns0| && Distinct(ns)
    && (forall k :: 0 <= k < |ns| ==> ns[k] !in l0)
    && |cur| == |ns0| + i
    && SplicedAt(cur, ns0, j - 1, ns[..i]) && SplicedAt(ec, es0, j - 1, vs[..i])
    && Members(cur) == Members(ns0) + Members(ns[..i])
    && l1.Keys == l0.Keys + Members(ns[..i])
    && KeepsCells(l0, l1, Loop(f, ns0, b))
  }

  /** `t` is `s` with `xs` spliced in at index `k`.  The equation stays
      behind `Later`, out of the solver's sight while it reasons about the
      ring, until a proof that needs it asserts `Later(0)`. */
  ghost predicate SplicedAt<X>(t: seq<X>, s: seq<X>, k: nat, xs: seq<X>)
  {
    forall z {:trigger Later(z)} :: Later(z) ==> k <= |s| && t == s[..k] + xs + s[k..]
  }

  /** Always true. A quantifier triggered on `Later` is instantiated only
      where a proof mentions `Later`, so the sequence equation it guards
      stays folded in every proof that does not need it. */
  predicate Later(z: int) { true }

  /** Before round `i` of the range insert its node is unallocated and its
      position is in range. */
  lemma PlacedFresh<T>(vs: seq<T>, ns: seq<Addr>, i: nat, j: nat, ns0: seq<Addr>, es0: seq<T>, l0: map<Addr, Cell>,
                       cur: seq<Addr>, ec: seq<T>, l1: map<Addr, Cell>, f: Addr, b: Addr)
    requires Placed(vs, ns, i, j, ns0, es0, l0, cur, ec, l1, f, b) && i < |vs|
    ensures ns[i] !in l1 && 1 <= j + i <= |cur| + 1
  {
    NextFresh(l0, ns, i);
  }

  /** Round `i` of the range insert, on values: splicing the node `ns[i]`
      with the value `vs[i]` in at index `j + i - 1`, allocating only that
      node and keeping the cells outside the current ring, extends what is
      placed by one. */
  lemma PlacedStep<T>(vs: seq<T>, ns: seq<Addr>, i: nat, j: nat, ns0: seq<Addr>, es0: seq<T>, l0: map<Addr, Cell>,
                      cur: seq<Addr>, ec: seq<T>, l1: map<Addr, Cell>, f: Addr, b: Addr,
                      cur2: seq<Addr>, ec2: seq<T>, l2: map<Addr, Cell>)
    requires Placed(vs, ns, i, j, ns0, es0, l0, cur, ec, l1, f, b) && i < |vs|
    requires j + i - 1 <= |cur| && cur2 == cur[..j + i - 1] + [ns[i]] + cur[j + i - 1..]
    requires j + i - 1 <= |ec| && ec2 == ec[..j + i - 1] + [vs[i]] + ec[j + i - 1..]
    requires l2.Keys == l1.Keys + {ns[i]} && KeepsCells(l1, l2, Loop(f, cur, b))
    ensures Placed(vs, ns, i + 1, j, ns0, es0, l0, cur2, ec2, l2, f, b)
  {
    Grow(ns0, ns, j - 1, i);
    Grow(es0, vs, j - 1, i);
    assert j + i - 1 == j - 1 + i;
    Allocated(l0, l1, l2, f, b, ns0, cur, ns, i, j + i - 1);
  }

  /** The next new node is neither an old address nor one of the new
      nodes before it. */
  lemma NextFresh(l0: map<Addr, Cell>, ns: seq<Addr>, i: nat)
    requires Distinct(ns) && i < |ns| && ns[i] !in l0
    ensures ns[i] !in l0.Keys + Members(ns[..i])
  {
    assert forall m :: 0 <= m < i ==> ns[..i][m] != ns[i];
  }

  /** The addresses listed after `x` is listed at index `k`. */
  lemma MembersSplice(s: seq<Addr>, k: nat, x: Addr)
    requires k <= |s|
    ensures Members(s[..k] + [x] + s[k..]) == Members(s) + {x}
  {
    assert s == s[..k] + s[k..];
    assert forall y :: y in s[..k] + [x] + s[k..] <==> y in s[..k] || y == x || y in s[k..];
  }

  /** The bookkeeping of one new node, `ns[i]`, allocated and linked into
      the ring of the payload nodes `cur` by a step that keeps every cell
      outside that ring: the arena now holds the first `i + 1` new nodes,
      the rest are still unallocated, and no cell outside the starting ring
      `Loop(f, ns0, b)` has changed. */
  lemma Allocated(l0: map<Addr, Cell>, l1: map<Addr, Cell>, l2: map<Addr, Cell>, f: Addr, b: Addr,
                  ns0: seq<Addr>, cur: seq<Addr>, ns: seq<Addr>, i: nat, k: nat)
    requires i < |ns| && Distinct(ns) && k <= |cur|
    requires forall m :: 0 <= m < |ns| ==> ns[m] !in l0
    requires Members(cur) == Members(ns0) + Members(ns[..i])
    requires l1.Keys == l0.Keys + Members(ns[..i]) && KeepsCells(l0, l1, Loop(f, ns0, b))
    requires l2.Keys == l1.Keys + {ns[i]} && KeepsCells(l1, l2, Loop(f, cur, b))
    ensures Members(cur[..k] + [ns[i]] + cur[k..]) == Members(ns0) + Members(ns[..i + 1])
    ensures l2.Keys == l0.Keys + Members(ns[..i + 1])
    ensures KeepsCells(l0, l2, Loop(f, ns0, b))
  {
    MembersSplice(cur, k, ns[i]);
    MembersSnoc(ns[..i], ns[i]);
    assert ns[..i + 1] == ns[..i] + [ns[i]];
    forall m | i + 1 <= m < |ns| ensures ns[m] !in l2 {
      assert ns[m] != ns[i];
      assert ns[m] !in Members(ns[..i]) by {
        forall q | 0 <= q < i ensures ns[..i][q] != ns[m] { assert ns[..i][q] == ns[q]; }
      }
    }
    LoopMembers(f, cur, b);
    LoopMembers(f, ns0, b);
    forall x | x in ns[..i] ensures x !in l0 {
      var q :| 0 <= q < i && ns[..i][q] == x;
      assert x == ns[q];
    }
    forall x | x in Loop(f, cur, b) ensures x in Loop(f, ns0, b) || x in ns[..i] {
      if x != f && x != b {
        assert x in Members(cur);
      }
    }
    KeepsCellsGrow(l0, l1, l2, Loop(f, ns0, b), Loop(f, cur, b), ns[..i]);
  }

  /** One `pos = insert(pos, *first)` of the range insert as written,
      with the first `i` values in, is one more step of `Retreating` for the
      nodes and for the data. */
  lemma Retreated<T>(ns0: seq<Addr>, cur: seq<Addr>, nodes: seq<Addr>, ns: seq<Addr>,
                     es0: seq<T>, ec: seq<T>, es: seq<T>, vs: seq<T>, i: nat, j: nat)
    requires i < |ns| == |vs| <= j <= |ns0| + 1 && |es0| == |ns0| && |cur| == |ec| && j - i <= |cur| + 1
    requires nodes == cur[..j - i - 1] + [ns[i]] + cur[j - i - 1..]
    requires es == ec[..j - i - 1] + [vs[i]] + ec[j - i - 1..]
    requires Retreating(cur, j - i, ns[i..]) == Retreating(ns0, j, ns)
    requires Retreating(ec, j - i, vs[i..]) == Retreating(es0, j, vs)
    ensures Retreating(nodes, j - (i + 1), ns[i + 1..]) == Retreating(ns0, j, ns)
    ensures Retreating(es, j - (i + 1), vs[i + 1..]) == Retreating(es0, j, vs)
  {
    RetreatingStep(cur, j - i, ns, i);
    RetreatingStep(ec, j - i, vs, i);
  }
}
