/**
 * Nodes of the XOR-linked list (`dllist_node_ptr_only<T>` and
 * `dllist_node<T>` in `dllist.hxx`).
 *
 * All nodes live in one `Arena`: `link` maps the address of every allocated
 * node (sentinels included) to its `xorptr_` cell, and `datum` maps the
 * address of every payload node to its `datum_`.  A sentinel is an address
 * with a cell and no datum.
 *
 * The static `insert` and `remove` of `dllist_node_ptr_only` are specified by
 * the pure functions `Inserted` and `Removed` on the cell map, and the lemmas
 * below state what they do to a ring.
 */
module Node {
  import opened XorPtr
  import opened Ring

  /** The cell computed by `updateptr(oldp, newp)`:
      `xorptr<..>(xorptr_ ^ oldp, newp)`.  A cell `a ^ oldp` becomes `a ^ newp`. */
  function Updated(c: Cell, oldp: Addr, newp: Addr): (r: Cell)
    ensures forall a :: c == CellOf(a, oldp) ==> r == CellOf(a, newp)
    ensures forall a :: c == CellOf(oldp, a) ==> r == CellOf(newp, a)
  {
    CellOf(Xor(c, oldp), newp)
  }

  /** The cell map after the static `insert(prev, before, n)`:
      recover `oldnext` from `before`'s cell, rewrite `oldnext`'s and
      `before`'s cells to reference `n`, then set `n`'s cell to
      `before ^ oldnext`. */
  function Inserted(link: map<Addr, Cell>, prev: Addr, before: Addr, n: Addr): map<Addr, Cell>
    requires before in link && Xor(link[before], prev) in link && n in link
  {
    var oldnext := Xor(link[before], prev);
    var l1 := link[oldnext := Updated(link[oldnext], before, n)];
    var l2 := l1[before := Updated(l1[before], oldnext, n)];
    l2[n := CellOf(before, oldnext)]
  }

  /** The cell map after the static `remove(prev, before)`: recover
      `oldnext` and `newnext`, rewrite `newnext`'s and `before`'s cells to
      reference each other, then clear `oldnext`'s cell. */
  function Removed(link: map<Addr, Cell>, prev: Addr, before: Addr): map<Addr, Cell>
    requires before in link && Xor(link[before], prev) in link
    requires Xor(link[Xor(link[before], prev)], before) in link
  {
    var oldnext := Xor(link[before], prev);
    var newnext := Xor(link[oldnext], before);
    var l1 := link[newnext := Updated(link[newnext], oldnext, before)];
    var l2 := l1[before := Updated(l1[before], oldnext, newnext)];
    l2[oldnext := NullCell()]
  }

  /** The address found after `w[1]` when coming from `w[0]`. */
  function Third(w: seq<Addr>): Addr
    requires |w| >= 2
  {
    if |w| == 2 then w[0] else w[2]
  }

  lemma LinkedCell(link: map<Addr, Cell>, w: seq<Addr>, i: nat)
    requires Linked(link, w) && i < |w|
    ensures w[i] in link && link[w[i]] == CellOf(w[Prev(|w|, i)], w[Next(|w|, i)])
  {
    assert LinkedAt(link, w, i);
  }

  /** Inserting a fresh address after position 1 keeps the ring distinct. */
  lemma InsertDistinct(w: seq<Addr>, n: Addr)
    requires |w| >= 2 && Distinct(w) && n !in w
    ensures Distinct(w[..2] + [n] + w[2..])
  {
    var w' := w[..2] + [n] + w[2..];
    forall i, j | 0 <= i < j < |w'| ensures w'[i] != w'[j] {
      if i == 2 {
        assert w'[j] == w[j - 1];
      } else if j == 2 {
      } else {
        assert w'[i] == w[if i < 2 then i else i - 1];
        assert w'[j] == w[if j < 2 then j else j - 1];
      }
    }
  }

  /** Dropping position 2 keeps the ring distinct. */
  lemma RemoveDistinct(w: seq<Addr>)
    requires |w| >= 3 && Distinct(w)
    ensures Distinct(w[..2] + w[3..])
  {
    var w' := w[..2] + w[3..];
    forall i, j | 0 <= i < j < |w'| ensures w'[i] != w'[j] {
      assert w'[i] == w[if i < 2 then i else i + 1];
      assert w'[j] == w[if j < 2 then j else j + 1];
    }
  }

  /** Positions of the ring with `n` inserted at position 2. */
  lemma InsertIndexing(w: seq<Addr>, n: Addr)
    requires |w| >= 2
    ensures var w' := w[..2] + [n] + w[2..];
      && |w'| == |w| + 1 && w'[0] == w[0] && w'[1] == w[1] && w'[2] == n
      && forall i :: 3 <= i <= |w| ==> w'[i] == w[i - 1]
  {
  }

  /** The cells `Inserted` leaves on a ring read as `[prev, before, ...]`. */
  lemma InsertedCells(link: map<Addr, Cell>, w: seq<Addr>, n: Addr)
    requires Linked(link, w) && Distinct(w) && n !in w && n in link
    ensures w[1] in link && Third(w) in link && Xor(link[w[1]], w[0]) == Third(w)
    ensures var l := Inserted(link, w[0], w[1], n);
      && l.Keys == link.Keys
      && l[w[1]] == CellOf(w[0], n)
      && l[n] == CellOf(w[1], Third(w))
      && l[Third(w)] == CellOf(n, w[Next(|w|, Next(|w|, 1))])
      && forall a :: a in link && a != w[1] && a != n && a != Third(w) ==> l[a] == link[a]
  {
    var m, p, b, o := |w|, w[0], w[1], Third(w);
    var o2 := w[Next(m, Next(m, 1))];
    LinkedCell(link, w, 1);
    LinkedCell(link, w, Next(m, 1));
    assert link[b] == CellOf(p, o);
    assert link[o] == CellOf(b, o2);
    assert Xor(link[b], p) == o;
    assert b != o && n != o && n != b;
    var c1 := Updated(link[o], b, n);
    assert c1 == CellOf(n, o2);
    var l1 := link[o := c1];
    assert l1[b] == CellOf(p, o);
    var c2 := Updated(l1[b], o, n);
    assert c2 == CellOf(p, n);
    var l2 := l1[b := c2];
    var l := l2[n := CellOf(b, o)];
    assert Inserted(link, p, b, n) == l;
  }

  /** One position of the ring after `Inserted`. */
  lemma InsertedAt(link: map<Addr, Cell>, l: map<Addr, Cell>, w: seq<Addr>, n: Addr, i: nat)
    requires Linked(link, w) && Distinct(w) && n !in w && i <= |w|
    requires l.Keys == link.Keys && n in l && w[1] in l && Third(w) in l
    requires l[w[1]] == CellOf(w[0], n) && l[n] == CellOf(w[1], Third(w))
    requires l[Third(w)] == CellOf(n, w[Next(|w|, Next(|w|, 1))])
    requires forall a :: a in link && a != w[1] && a != n && a != Third(w) ==> l[a] == link[a]
    ensures LinkedAt(l, w[..2] + [n] + w[2..], i)
  {
    var m, p, b, o := |w|, w[0], w[1], Third(w);
    var w' := w[..2] + [n] + w[2..];
    InsertIndexing(w, n);
    if i == 0 {
      if m > 2 {
        LinkedCell(link, w, 0);
        assert p != o && p != b && p != n;
      }
    } else if i == 1 {
    } else if i == 2 {
      assert w'[Next(m + 1, 2)] == o;
    } else if i == 3 {
      assert w'[3] == o;
      assert w'[Next(m + 1, 3)] == w[Next(m, 2)];
    } else {
      var g := i - 1;
      LinkedCell(link, w, g);
      assert w[g] != o && w[g] != b && w[g] != n;
      assert w'[i] == w[g];
      assert w'[i - 1] == w[g - 1];
      assert w'[Next(m + 1, i)] == w[Next(m, g)];
    }
  }

  /** The static `insert(prev, before, n)` on a ring read as
      `[prev, before, oldnext, ...]`: it returns `oldnext`, the ring becomes
      `[prev, before, n, oldnext, ...]`, and only the cells of `before`,
      `n` and `oldnext` change. */
  lemma InsertedRing(link: map<Addr, Cell>, w: seq<Addr>, n: Addr)
    requires Linked(link, w) && Distinct(w) && n !in w && n in link
    ensures w[1] in link && Third(w) in link && Xor(link[w[1]], w[0]) == Third(w)
    ensures var l := Inserted(link, w[0], w[1], n);
      && Linked(l, w[..2] + [n] + w[2..])
      && Distinct(w[..2] + [n] + w[2..])
      && l.Keys == link.Keys
      && forall a :: a in link && a != w[1] && a != n && a != Third(w) ==> l[a] == link[a]
  {
    InsertedCells(link, w, n);
    InsertDistinct(w, n);
    var l := Inserted(link, w[0], w[1], n);
    forall i | 0 <= i < |w| + 1 ensures LinkedAt(l, w[..2] + [n] + w[2..], i) {
      InsertedAt(link, l, w, n, i);
    }
  }

  /** Positions of the ring with position 2 dropped. */
  lemma RemoveIndexing(w: seq<Addr>)
    requires |w| >= 3
    ensures var w' := w[..2] + w[3..];
      && |w'| == |w| - 1 && w'[0] == w[0] && w'[1] == w[1]
      && forall i :: 2 <= i < |w| - 1 ==> w'[i] == w[i + 1]
  {
  }

  /** The cells `Removed` leaves on a ring read as `[prev, before, oldnext, ...]`. */
  lemma RemovedCells(link: map<Addr, Cell>, w: seq<Addr>)
    requires Linked(link, w) && Distinct(w) && |w| >= 3
    ensures w[1] in link && w[2] in link && w[Next(|w|, 2)] in link
    ensures Xor(link[w[1]], w[0]) == w[2] && Xor(link[w[2]], w[1]) == w[Next(|w|, 2)]
    ensures var l := Removed(link, w[0], w[1]);
      && l.Keys == link.Keys
      && l[w[1]] == CellOf(w[0], w[Next(|w|, 2)])
      && l[w[2]] == NullCell()
      && l[w[Next(|w|, 2)]] == CellOf(w[1], w[Next(|w|, Next(|w|, 2))])
      && forall a :: a in link && a != w[1] && a != w[2] && a != w[Next(|w|, 2)] ==> l[a] == link[a]
  {
    var m, p, b, o := |w|, w[0], w[1], w[2];
    var nn := w[Next(m, 2)];
    var n2 := w[Next(m, Next(m, 2))];
    LinkedCell(link, w, 1);
    LinkedCell(link, w, 2);
    LinkedCell(link, w, Next(m, 2));
    assert link[b] == CellOf(p, o);
    assert link[o] == CellOf(b, nn);
    assert link[nn] == CellOf(o, n2);
    assert b != o && b != nn && o != nn;
    assert Xor(link[b], p) == o && Xor(link[o], b) == nn;
    var c1 := Updated(link[nn], o, b);
    assert c1 == CellOf(b, n2);
    var l1 := link[nn := c1];
    assert l1[b] == CellOf(p, o);
    var c2 := Updated(l1[b], o, nn);
    assert c2 == CellOf(p, nn);
    var l2 := l1[b := c2];
    var l := l2[o := NullCell()];
    assert Removed(link, p, b) == l;
  }

  /** One position of the ring after `Removed`. */
  lemma RemovedAt(link: map<Addr, Cell>, l: map<Addr, Cell>, w: seq<Addr>, i: nat)
    requires Linked(link, w) && Distinct(w) && |w| >= 3 && i < |w| - 1
    requires l.Keys == link.Keys && w[1] in l && w[Next(|w|, 2)] in l
    requires l[w[1]] == CellOf(w[0], w[Next(|w|, 2)])
    requires l[w[Next(|w|, 2)]] == CellOf(w[1], w[Next(|w|, Next(|w|, 2))])
    requires forall a :: a in link && a != w[1] && a != w[2] && a != w[Next(|w|, 2)] ==> l[a] == link[a]
    ensures LinkedAt(l, w[..2] + w[3..], i)
  {
    var m, p, b := |w|, w[0], w[1];
    var w' := w[..2] + w[3..];
    RemoveIndexing(w);
    if i == 0 {
      if m > 3 {
        LinkedCell(link, w, 0);
        assert p != b && p != w[2] && p != w[3];
      }
    } else if i == 1 {
      assert w'[Next(m - 1, 1)] == w[Next(m, 2)];
    } else if i == 2 {
      assert w'[2] == w[3];
      assert w'[Next(m - 1, 2)] == w[Next(m, 3)];
    } else {
      var g := i + 1;
      LinkedCell(link, w, g);
      assert w[g] != b && w[g] != w[2] && w[g] != w[3];
      assert w'[i] == w[g];
      assert w'[i - 1] == w[g - 1];
      assert w'[Next(m - 1, i)] == w[Next(m, g)];
    }
  }

  /** The static `remove(prev, before)` on a ring read as
      `[prev, before, oldnext, newnext, ...]`: it returns `oldnext`, the
      ring becomes `[prev, before, newnext, ...]`, the removed node's cell is
      reset to the null encoding, and only the cells of `before`, `newnext`
      and the removed node change. */
  lemma RemovedRing(link: map<Addr, Cell>, w: seq<Addr>)
    requires Linked(link, w) && Distinct(w) && |w| >= 3
    ensures w[1] in link && w[2] in link && w[Next(|w|, 2)] in link
    ensures Xor(link[w[1]], w[0]) == w[2] && Xor(link[w[2]], w[1]) == w[Next(|w|, 2)]
    ensures var l := Removed(link, w[0], w[1]);
      && Linked(l, w[..2] + w[3..])
      && Distinct(w[..2] + w[3..])
      && l.Keys == link.Keys
      && l[w[2]] == NullCell()
      && forall a :: a in link && a != w[1] && a != w[2] && a != w[Next(|w|, 2)] ==> l[a] == link[a]
  {
    RemovedCells(link, w);
    RemoveDistinct(w);
    var l := Removed(link, w[0], w[1]);
    forall i | 0 <= i < |w| - 1 ensures LinkedAt(l, w[..2] + w[3..], i) {
      RemovedAt(link, l, w, i);
    }
  }

  /** Inserting `n` after `before` and then removing the node after `before`
      removes `n` again and restores every cell except `n`'s, which is left
      null. */
  lemma InsertRemoveRoundTrip(link: map<Addr, Cell>, w: seq<Addr>, n: Addr)
    requires Linked(link, w) && Distinct(w) && n !in w && n in link
    ensures w[1] in link && Third(w) in link && Xor(link[w[1]], w[0]) == Third(w)
    ensures var l := Inserted(link, w[0], w[1], n);
      && l.Keys == link.Keys
      && l[w[1]] == CellOf(w[0], n)
      && l[n] == CellOf(w[1], Third(w))
      && Removed(l, w[0], w[1]) == link[n := NullCell()]
  {
    InsertedRing(link, w, n);
    InsertedCells(link, w, n);
    var l := Inserted(link, w[0], w[1], n);
    var w' := w[..2] + [n] + w[2..];
    LinkedCell(l, w', 1);
    RemovedRing(l, w');
    var r := Removed(l, w[0], w[1]);
    assert w'[..2] + w'[3..] == w;
    var goal := link[n := NullCell()];
    LinkedUnique(r, link, w);
    forall a | a in goal ensures a in r && r[a] == goal[a] {
      if a == n {
      } else if a in w {
        var i :| 0 <= i < |w| && w[i] == a;
      } else {
        assert a != Third(w) && a != w[1];
      }
    }
    assert r.Keys == goal.Keys;
  }

  // ---------------------------------------------------------------------
  // insert/remove at a position of a ring read from its first element
  // ---------------------------------------------------------------------

  /** The ring with `n` placed before position `j`. */
  function Spliced(w: seq<Addr>, j: nat, n: Addr): seq<Addr>
    requires j <= |w|
  {
    w[..j] + [n] + w[j..]
  }

  /** The ring with position `j` dropped. */
  function Dropped(w: seq<Addr>, j: nat): seq<Addr>
    requires j < |w|
  {
    w[..j] + w[j + 1..]
  }

  lemma SplicedRotation(w: seq<Addr>, j: nat, n: Addr)
    requires 1 <= j < |w|
    ensures var r := Rotate(w, Prev(|w|, j - 1));
      Rotate(Spliced(w, j, n), if j >= 2 then j - 2 else |w|) == r[..2] + [n] + r[2..]
  {
    var m := |w|;
    var r := Rotate(w, Prev(m, j - 1));
    var w' := Spliced(w, j, n);
    if j >= 2 {
      assert r[..2] == w[j - 2..j];
      assert r[2..] == w[j..] + w[..j - 2];
      assert w'[j - 2..] == w[j - 2..j] + [n] + w[j..];
      assert w'[..j - 2] == w[..j - 2];
    } else {
      assert r[..2] == [w[m - 1], w[0]];
      assert r[2..] == w[1..m - 1];
      assert w'[m..] == [w[m - 1]];
      assert w'[..m] == [w[0], n] + w[1..m - 1];
    }
  }

  lemma DroppedRotation(w: seq<Addr>, j: nat)
    requires 1 <= j < |w| && |w| >= 3
    ensures var r := Rotate(w, Prev(|w|, j - 1));
      Rotate(Dropped(w, j), if j >= 2 then j - 2 else |w| - 2) == r[..2] + r[3..]
  {
    var m := |w|;
    var r := Rotate(w, Prev(m, j - 1));
    var w' := Dropped(w, j);
    if j >= 2 {
      assert r[..2] == w[j - 2..j];
      assert r[3..] == w[j + 1..] + w[..j - 2];
      assert w'[j - 2..] == w[j - 2..j] + w[j + 1..];
      assert w'[..j - 2] == w[..j - 2];
    } else {
      assert r[..2] == [w[m - 1], w[0]];
      assert r[3..] == w[2..m - 1];
      assert w'[m - 2..] == [w[m - 1]];
      assert w'[..m - 2] == [w[0]] + w[2..m - 1];
    }
  }

  /** The static `insert(prev, before, n)` with `before` at position `j - 1`
      and `prev` its predecessor: `n` lands before position `j`, the call
      returns the address at position `j`, and only the cells of `before`,
      `n` and that address change. */
  lemma InsertBefore(link: map<Addr, Cell>, w: seq<Addr>, j: nat, n: Addr)
    requires Linked(link, w) && Distinct(w) && n !in w && n in link && 1 <= j < |w|
    ensures w[j - 1] in link && w[j] in link && Xor(link[w[j - 1]], w[Prev(|w|, j - 1)]) == w[j]
    ensures var l := Inserted(link, w[Prev(|w|, j - 1)], w[j - 1], n);
      && Linked(l, Spliced(w, j, n))
      && Distinct(Spliced(w, j, n))
      && l.Keys == link.Keys
      && forall a :: a in link && a != w[j - 1] && a != n && a != w[j] ==> l[a] == link[a]
  {
    var m, s := |w|, Prev(|w|, j - 1);
    var r := Rotate(w, s);
    Rotation(link, w, s);
    assert r[0] == w[s] && r[1] == w[j - 1] && Third(r) == w[j];
    InsertedRing(link, r, n);
    var l := Inserted(link, r[0], r[1], n);
    SplicedRotation(w, j, n);
    Rotation(l, Spliced(w, j, n), if j >= 2 then j - 2 else m);
  }

  /** The static `remove(prev, before)` with `before` at position `j - 1`
      and `prev` its predecessor: the address at position `j` is returned and
      dropped, its cell nulled, and only the cells of `before`, the removed
      node and its successor change. */
  lemma RemoveAt(link: map<Addr, Cell>, w: seq<Addr>, j: nat)
    requires Linked(link, w) && Distinct(w) && |w| >= 3 && 1 <= j < |w|
    ensures w[j - 1] in link && w[j] in link && w[Next(|w|, j)] in link
    ensures Xor(link[w[j - 1]], w[Prev(|w|, j - 1)]) == w[j] && Xor(link[w[j]], w[j - 1]) == w[Next(|w|, j)]
    ensures var l := Removed(link, w[Prev(|w|, j - 1)], w[j - 1]);
      && Linked(l, Dropped(w, j))
      && Distinct(Dropped(w, j))
      && l.Keys == link.Keys
      && l[w[j]] == NullCell()
      && forall a :: a in link && a != w[j - 1] && a != w[j] && a != w[Next(|w|, j)] ==> l[a] == link[a]
  {
    var m, s := |w|, Prev(|w|, j - 1);
    var r := Rotate(w, s);
    Rotation(link, w, s);
    assert r[0] == w[s] && r[1] == w[j - 1] && r[2] == w[j] && r[Next(m, 2)] == w[Next(m, j)];
    RemovedRing(link, r);
    var l := Removed(link, r[0], r[1]);
    DroppedRotation(w, j);
    Rotation(l, Dropped(w, j), if j >= 2 then j - 2 else m - 2);
  }

  /** `insert(&front_, &back_, n)` read on the ring `w = [front_, .., back_]`:
      the ring is walked backwards from `back_`, so `n` lands just before the
      last position. */
  lemma InsertBeforeLast(link: map<Addr, Cell>, w: seq<Addr>, n: Addr)
    requires Linked(link, w) && Distinct(w) && n !in w && n in link
    ensures var m := |w|;
      && w[m - 1] in link && w[m - 2] in link && Xor(link[w[m - 1]], w[0]) == w[m - 2]
      && var l := Inserted(link, w[0], w[m - 1], n);
        && Linked(l, Spliced(w, m - 1, n))
        && Distinct(Spliced(w, m - 1, n))
        && l.Keys == link.Keys
        && forall a :: a in link && a != w[m - 1] && a != n && a != w[m - 2] ==> l[a] == link[a]
  {
    var m, v := |w|, Reverse(w);
    Reversal(link, w);
    assert n !in v by {
      forall i | 0 <= i < m ensures v[i] != n { assert v[i] == w[m - 1 - i]; }
    }
    assert v[0] == w[m - 1] && v[1] == w[m - 2] && v[Prev(m, 0)] == w[0];
    InsertBefore(link, v, 1, n);
    var l := Inserted(link, w[0], w[m - 1], n);
    Reversal(l, Spliced(v, 1, n));
    ReverseSpliced(w, n);
  }

  lemma ReverseSpliced(w: seq<Addr>, n: Addr)
    requires |w| >= 2
    ensures Reverse(Spliced(Reverse(w), 1, n)) == Spliced(w, |w| - 1, n)
  {
    var m := |w|;
    var a, b := Reverse(Spliced(Reverse(w), 1, n)), Spliced(w, m - 1, n);
    forall i | 0 <= i <= m ensures a[i] == b[i] {
      if i < m - 1 { assert a[i] == w[i]; } else if i == m - 1 { assert a[i] == n; }
    }
  }

  lemma ReverseDropped(w: seq<Addr>)
    requires |w| >= 3
    ensures Reverse(Dropped(Reverse(w), 1)) == Dropped(w, |w| - 2)
  {
    var m := |w|;
    var a, b := Reverse(Dropped(Reverse(w), 1)), Dropped(w, m - 2);
    forall i | 0 <= i < m - 1 ensures a[i] == b[i] {
      if i < m - 2 { assert a[i] == w[i]; } else { assert a[i] == w[m - 1]; }
    }
  }

  /** `remove(&front_, &back_)` read on the ring `w = [front_, .., back_]`:
      the position just before the last is dropped. */
  lemma RemoveBeforeLast(link: map<Addr, Cell>, w: seq<Addr>)
    requires Linked(link, w) && Distinct(w) && |w| >= 3
    ensures var m := |w|;
      && w[m - 1] in link && w[m - 2] in link && w[m - 3] in link
      && Xor(link[w[m - 1]], w[0]) == w[m - 2] && Xor(link[w[m - 2]], w[m - 1]) == w[m - 3]
      && var l := Removed(link, w[0], w[m - 1]);
        && Linked(l, Dropped(w, m - 2))
        && Distinct(Dropped(w, m - 2))
        && l.Keys == link.Keys
        && l[w[m - 2]] == NullCell()
        && forall a :: a in link && a != w[m - 1] && a != w[m - 2] && a != w[m - 3] ==> l[a] == link[a]
  {
    var m, v := |w|, Reverse(w);
    Reversal(link, w);
    RemoveAt(link, v, 1);
    var l := Removed(link, w[0], w[m - 1]);
    Reversal(l, Dropped(v, 1));
    ReverseDropped(w);
  }

  // ---------------------------------------------------------------------
  // allocate-and-insert, remove-and-free, as the list operations do them
  // ---------------------------------------------------------------------

  /** A node allocated at the unused address `n` (cell `xorptr(nullptr,
      nullptr)`) and linked before position `j`. */
  lemma AllocInsert(link: map<Addr, Cell>, w: seq<Addr>, j: nat, n: Addr)
    requires Linked(link, w) && Distinct(w) && n !in link && 1 <= j < |w|
    ensures n !in w
    ensures var l0 := link[n := CellOf(Null, Null)];
      && w[j - 1] in l0 && n in l0 && w[j] in l0
      && Xor(l0[w[j - 1]], w[Prev(|w|, j - 1)]) == w[j]
      && var l := Inserted(l0, w[Prev(|w|, j - 1)], w[j - 1], n);
        && Linked(l, Spliced(w, j, n)) && Distinct(Spliced(w, j, n))
        && l.Keys == link.Keys + {n}
        && KeepsCells(link, l, w)
  {
    var l0 := link[n := CellOf(Null, Null)];
    assert n !in w by {
      forall i | 0 <= i < |w| ensures w[i] != n { assert LinkedAt(link, w, i); }
    }
    LinkedSet(link, w, n, CellOf(Null, Null));
    InsertBefore(l0, w, j, n);
  }

  /** As `AllocInsert`, linking the new node after the first position with
      `insert(w[|w| - 1], w[0], n)`. */
  lemma AllocInsertFirst(link: map<Addr, Cell>, w: seq<Addr>, n: Addr)
    requires Linked(link, w) && Distinct(w) && n !in link
    ensures n !in w
    ensures var m, l0 := |w|, link[n := CellOf(Null, Null)];
      && w[0] in l0 && n in l0 && w[1] in l0
      && Xor(l0[w[0]], w[m - 1]) == w[1]
      && var l := Inserted(l0, w[m - 1], w[0], n);
        && Linked(l, Spliced(w, 1, n)) && Distinct(Spliced(w, 1, n))
        && l.Keys == link.Keys + {n}
        && KeepsCells(link, l, w)
  {
    AllocInsert(link, w, 1, n);
    assert Prev(|w|, 0) == |w| - 1;
  }

  /** As `AllocInsert`, linking the new node before the last position with
      `insert(w[0], w[|w| - 1], n)`. */
  lemma AllocInsertLast(link: map<Addr, Cell>, w: seq<Addr>, n: Addr)
    requires Linked(link, w) && Distinct(w) && n !in link
    ensures n !in w
    ensures var m, l0 := |w|, link[n := CellOf(Null, Null)];
      && w[m - 1] in l0 && n in l0 && w[m - 2] in l0
      && Xor(l0[w[m - 1]], w[0]) == w[m - 2]
      && var l := Inserted(l0, w[0], w[m - 1], n);
        && Linked(l, Spliced(w, m - 1, n)) && Distinct(Spliced(w, m - 1, n))
        && l.Keys == link.Keys + {n}
        && KeepsCells(link, l, w)
  {
    var l0 := link[n := CellOf(Null, Null)];
    assert n !in w by {
      forall i | 0 <= i < |w| ensures w[i] != n { assert LinkedAt(link, w, i); }
    }
    LinkedSet(link, w, n, CellOf(Null, Null));
    InsertBeforeLast(l0, w, n);
  }

  /** The node at position `j` unlinked by `remove` from its predecessor
      pair, then deleted. */
  lemma RemoveFree(link: map<Addr, Cell>, w: seq<Addr>, j: nat)
    requires Linked(link, w) && Distinct(w) && |w| >= 3 && 1 <= j < |w|
    ensures w[j - 1] in link && w[j] in link && w[Next(|w|, j)] in link
    ensures Xor(link[w[j - 1]], w[Prev(|w|, j - 1)]) == w[j] && Xor(link[w[j]], w[j - 1]) == w[Next(|w|, j)]
    ensures var l := Removed(link, w[Prev(|w|, j - 1)], w[j - 1]) - {w[j]};
      && Linked(l, Dropped(w, j)) && Distinct(Dropped(w, j))
      && l.Keys == link.Keys - {w[j]}
      && KeepsCells(link, l, w)
  {
    RemoveAt(link, w, j);
    var l1 := Removed(link, w[Prev(|w|, j - 1)], w[j - 1]);
    var w' := Dropped(w, j);
    assert w[j] !in w' by {
      forall i | 0 <= i < |w'| ensures w'[i] != w[j] {
        if i < j { assert w'[i] == w[i]; } else { assert w'[i] == w[i + 1]; }
      }
    }
    LinkedErase(l1, w', w[j]);
  }

  /** As `RemoveFree`, unlinking the node before the last position with
      `remove(w[0], w[|w| - 1])`. */
  lemma RemoveFreeLast(link: map<Addr, Cell>, w: seq<Addr>)
    requires Linked(link, w) && Distinct(w) && |w| >= 3
    ensures var m := |w|;
      && w[m - 1] in link && w[m - 2] in link && w[m - 3] in link
      && Xor(link[w[m - 1]], w[0]) == w[m - 2] && Xor(link[w[m - 2]], w[m - 1]) == w[m - 3]
      && var l := Removed(link, w[0], w[m - 1]) - {w[m - 2]};
        && Linked(l, Dropped(w, m - 2)) && Distinct(Dropped(w, m - 2))
        && l.Keys == link.Keys - {w[m - 2]}
        && KeepsCells(link, l, w)
  {
    var m := |w|;
    RemoveBeforeLast(link, w);
    var l1 := Removed(link, w[0], w[m - 1]);
    var w' := Dropped(w, m - 2);
    assert w[m - 2] !in w' by {
      forall i | 0 <= i < |w'| ensures w'[i] != w[m - 2] {
        if i < m - 2 { assert w'[i] == w[i]; } else { assert w'[i] == w[i + 1]; }
      }
    }
    LinkedErase(l1, w', w[m - 2]);
  }

  /**
   * The node arena: the cell of every allocated node and the datum of every
   * payload node.  Each `dllist_node_ptr_only` member that mutates
   * `xorptr_` becomes a method here that names the node by its address.
   */
  class Arena<T> {
    var link: map<Addr, Cell>
    var datum: map<Addr, T>

    /** Only allocated nodes carry a datum. */
    ghost predicate Valid()
      reads this
    {
      datum.Keys <= link.Keys
    }

    /** An arena with no nodes in it. */
    constructor ()
      ensures Valid() && link == map[] && datum == map[]
    {
      link, datum := map[], map[];
    }

    /** `x->nextptr(prev)`: unlock the neighbour of `x` on the side away
        from `prev`, without changing anything. */
    function NextPtr(x: Addr, prev: Addr): (r: Addr)
      reads this
      requires x in link
      ensures forall q :: link[x] == CellOf(prev, q) ==> r == q
      ensures forall q :: link[x] == CellOf(q, prev) ==> r == q
    {
      Xor(link[x], prev)
    }

    /** `to_node().datum()`: defined on payload nodes only. */
    function Datum(x: Addr): T
      reads this
      requires x in datum
    {
      datum[x]
    }

    /** `x->updateptr(oldp, newp)`: a cell `a ^ oldp` becomes `a ^ newp`. */
    method UpdatePtr(x: Addr, oldp: Addr, newp: Addr)
      requires x in link
      modifies this
      ensures link == old(link)[x := Updated(old(link)[x], oldp, newp)]
      ensures datum == old(datum)
    {
      link := link[x := CellOf(Xor(link[x], oldp), newp)];
    }

    /** `x->setptr(p1, p2)`: overwrite the cell of `x` with `p1 ^ p2`. */
    method SetPtr(x: Addr, p1: Addr, p2: Addr)
      requires x in link
      modifies this
      ensures link == old(link)[x := CellOf(p1, p2)]
      ensures datum == old(datum)
    {
      link := link[x := CellOf(p1, p2)];
    }

    /** `a.swap(b)` of `dllist_node_ptr_only`: exchange the two cells. */
    method SwapPtr(a: Addr, b: Addr)
      requires a in link && b in link
      modifies this
      ensures link == old(link)[a := old(link)[b]][b := old(link)[a]]
      ensures datum == old(datum)
    {
      link := link[a := link[b]][b := link[a]];
    }

    /** `a.swap(b)` of `dllist_node`: exchange cells and data. */
    method SwapNodes(a: Addr, b: Addr)
      requires a in datum && b in datum && Valid()
      modifies this
      ensures Valid()
      ensures link == old(link)[a := old(link)[b]][b := old(link)[a]]
      ensures datum == old(datum)[a := old(datum)[b]][b := old(datum)[a]]
    {
      SwapPtr(a, b);
      datum := datum[a := datum[b]][b := datum[a]];
    }

    /** `dllist_node_ptr_only(p1, p2)` constructed in place at the unused
        address `x`, as a list does with its two sentinel members. */
    method Place(x: Addr, p1: Addr, p2: Addr)
      requires Valid() && x !in link
      modifies this
      ensures Valid()
      ensures link == old(link)[x := CellOf(p1, p2)]
      ensures datum == old(datum)
    {
      link := link[x := CellOf(p1, p2)];
    }

    /** `new dllist_node<T>(v)` at the fresh address `n` the allocator
        returned: the cell is `xorptr(nullptr, nullptr)`. */
    method New(n: Addr, v: T)
      requires Valid() && n !in link
      modifies this
      ensures Valid()
      ensures link == old(link)[n := CellOf(Null, Null)]
      ensures datum == old(datum)[n := v]
    {
      link := link[n := CellOf(Null, Null)];
      datum := datum[n := v];
    }

    /** `delete n`: the node's storage is released. */
    method Delete(n: Addr)
      requires Valid()
      modifies this
      ensures Valid()
      ensures link == old(link) - {n} && datum == old(datum) - {n}
    {
      link := link - {n};
      datum := datum - {n};
    }

    /** The static `insert(prev, before, new_node)`; returns `oldnext`. */
    method Insert(prev: Addr, before: Addr, n: Addr) returns (oldnext: Addr)
      requires before in link && Xor(link[before], prev) in link && n in link
      modifies this
      ensures oldnext == Xor(old(link)[before], prev)
      ensures link == Inserted(old(link), prev, before, n)
      ensures datum == old(datum)
    {
      oldnext := NextPtr(before, prev);
      UpdatePtr(oldnext, before, n);
      UpdatePtr(before, oldnext, n);
      SetPtr(n, before, oldnext);
    }

    /** The static `remove(prev, before)`; returns the removed node. */
    method Remove(prev: Addr, before: Addr) returns (oldnext: Addr)
      requires before in link && Xor(link[before], prev) in link
      requires Xor(link[Xor(link[before], prev)], before) in link
      modifies this
      ensures oldnext == Xor(old(link)[before], prev)
      ensures link == Removed(old(link), prev, before)
      ensures datum == old(datum)
    {
      oldnext := NextPtr(before, prev);
      var newnext := NextPtr(oldnext, before);
      UpdatePtr(newnext, oldnext, before);
      UpdatePtr(before, oldnext, newnext);
      link := link[oldnext := NullCell()];
    }
  }
}
