/**
 * `dllist_iter` (and its const twin `dllist_citer`): a cursor made of the
 * node it designates, `nodeptr_`, and the node just before it, `prevptr_`,
 * whose address unlocks the next node from the XOR-encoded cell.
 *
 * The iterator is a copyable value in the source (every use copies it), so it
 * is a datatype here and `++`/`--` are functions returning the moved cursor.
 */
module Cursor {
  import opened XorPtr
  import opened Ring

  datatype Iter = Iter(prevptr: Addr, nodeptr: Addr)

  /** `operator ==`: two cursors are equal when they designate the same node,
      whatever node they remember as the previous one. */
  predicate Equal(a: Iter, b: Iter)
  {
    a.nodeptr == b.nodeptr
  }

  /** `==` is an equivalence that ignores `prevptr_`: a cursor equals every
      cursor on the same node, whatever node either remembers as previous. */
  lemma EqualIgnoresPrev(a: Iter, b: Iter, p: Addr, q: Addr)
    ensures Equal(a, a) && (Equal(a, b) <==> Equal(b, a))
    ensures Equal(a, b) <==> Equal(Iter(p, a.nodeptr), Iter(q, b.nodeptr))
  {
  }

  /** Prefix `++`: unlock the next node with `prevptr_`, then step forward. */
  function Inc(link: map<Addr, Cell>, it: Iter): (r: Iter)
    requires it.nodeptr in link
    ensures r.prevptr == it.nodeptr
    ensures forall q :: link[it.nodeptr] == CellOf(it.prevptr, q) ==> r.nodeptr == q
  {
    Iter(it.nodeptr, Xor(link[it.nodeptr], it.prevptr))
  }

  /** Prefix `--`: unlock the node before `prevptr_` with `nodeptr_`, then
      step back. */
  function Dec(link: map<Addr, Cell>, it: Iter): (r: Iter)
    requires it.prevptr in link
    ensures r.nodeptr == it.prevptr
    ensures forall q :: link[it.prevptr] == CellOf(q, it.nodeptr) ==> r.prevptr == q
  {
    Iter(Xor(link[it.prevptr], it.nodeptr), it.prevptr)
  }

  /** The cursor at position `j` of the ring `w`. */
  function At(w: seq<Addr>, j: nat): Iter
    requires j < |w|
  {
    Iter(w[Prev(|w|, j)], w[j])
  }

  /** `--` undoes `++` on any cell, linked or not. */
  lemma IncThenDec(link: map<Addr, Cell>, it: Iter)
    requires it.nodeptr in link
    ensures Inc(link, it).prevptr in link && Dec(link, Inc(link, it)) == it
  {
    var c, p := link[it.nodeptr], it.prevptr;
    var q := Xor(c, p);
    CreateSymmetric(p, q);
    CreateInjective(q, Xor(c, q), p);
  }

  /** `++` undoes `--` on any cell, linked or not. */
  lemma DecThenInc(link: map<Addr, Cell>, it: Iter)
    requires it.prevptr in link
    ensures Dec(link, it).nodeptr in link && Inc(link, Dec(link, it)) == it
  {
    var c, n := link[it.prevptr], it.nodeptr;
    var q := Xor(c, n);
    CreateSymmetric(n, q);
    CreateInjective(q, Xor(c, q), n);
  }

  /** On a linked ring, `++` moves the cursor one position forward. */
  lemma IncAt(link: map<Addr, Cell>, w: seq<Addr>, j: nat)
    requires Linked(link, w) && j < |w|
    ensures w[j] in link && Inc(link, At(w, j)) == At(w, Next(|w|, j))
  {
    assert LinkedAt(link, w, j);
  }

  /** On a linked ring, `--` moves the cursor one position back. */
  lemma DecAt(link: map<Addr, Cell>, w: seq<Addr>, j: nat)
    requires Linked(link, w) && j < |w|
    ensures w[Prev(|w|, j)] in link && Dec(link, At(w, j)) == At(w, Prev(|w|, j))
  {
    assert LinkedAt(link, w, Prev(|w|, j));
  }

  /** On a ring of distinct addresses, cursors compare equal exactly when
      they stand at the same position. */
  lemma EqualAt(w: seq<Addr>, i: nat, j: nat)
    requires Distinct(w) && i < |w| && j < |w|
    ensures Equal(At(w, i), At(w, j)) <==> i == j
  {
    if i < j {
      assert w[i] != w[j];
    } else if j < i {
      assert w[j] != w[i];
    }
  }

  /** `k` applications of `++`, as a range-for loop performs them; a cursor
      on an unallocated node stays where it is. */
  function Advance(link: map<Addr, Cell>, it: Iter, k: nat): Iter
    decreases k
  {
    if k == 0 || it.nodeptr !in link then it else Advance(link, Inc(link, it), k - 1)
  }

  /** `k` applications of `--`. */
  function Retreat(link: map<Addr, Cell>, it: Iter, k: nat): Iter
    decreases k
  {
    if k == 0 || it.prevptr !in link then it else Retreat(link, Dec(link, it), k - 1)
  }

  /** The nodes designated along `k` applications of `++`, before each step. */
  function Visit(link: map<Addr, Cell>, it: Iter, k: nat): seq<Addr>
    decreases k
  {
    if k == 0 || it.nodeptr !in link then [] else [it.nodeptr] + Visit(link, Inc(link, it), k - 1)
  }

  /** The nodes designated along `k` applications of `--`, after each step. */
  function VisitBack(link: map<Addr, Cell>, it: Iter, k: nat): seq<Addr>
    decreases k
  {
    if k == 0 || it.prevptr !in link then [] else [it.prevptr] + VisitBack(link, Dec(link, it), k - 1)
  }

  /** Walking forward from position `j` for `k` steps without wrapping round
      lands on position `j + k` and designates `w[j..j + k]` on the way. */
  lemma {:induction false} AdvanceAt(link: map<Addr, Cell>, w: seq<Addr>, j: nat, k: nat)
    requires Linked(link, w) && j + k < |w|
    ensures Advance(link, At(w, j), k) == At(w, j + k)
    ensures Visit(link, At(w, j), k) == w[j..j + k]
    decreases k
  {
    if k > 0 {
      IncAt(link, w, j);
      assert Next(|w|, j) == j + 1;
      AdvanceAt(link, w, j + 1, k - 1);
      assert w[j..j + k] == [w[j]] + w[j + 1..j + k];
    }
  }

  /** Walking back from position `j` for `k` steps, `k <= j`, lands on
      position `j - k` and designates the reversal of `w[j - k..j]`. */
  lemma {:induction false} RetreatAt(link: map<Addr, Cell>, w: seq<Addr>, j: nat, k: nat)
    requires Linked(link, w) && k <= j < |w|
    ensures Retreat(link, At(w, j), k) == At(w, j - k)
    ensures VisitBack(link, At(w, j), k) == Reverse(w[j - k..j])
    decreases k
  {
    if k > 0 {
      DecAt(link, w, j);
      assert Prev(|w|, j) == j - 1;
      RetreatAt(link, w, j - 1, k - 1);
      var s := w[j - k..j];
      assert Reverse(s) == [w[j - 1]] + Reverse(w[j - k..j - 1]);
    }
  }
}
