/**
 * The closed ring that every XOR-linked list forms.
 *
 * A ring is a cyclic sequence `w` of distinct addresses in which the cell of
 * each address encodes its two cyclic neighbours.  A list with sentinels
 * `front_` and `back_` and payload nodes `n1 .. nk` is the ring
 * `[front_, n1, .., nk, back_]`; when it is empty the ring is
 * `[front_, back_]` and both cells hold the self-XOR (zero) encoding.
 *
 * Because XOR forgets direction, a ring can be read from any element and in
 * either direction: rotating or reversing `w` gives the same linkage.
 */
module Ring {
  import opened XorPtr

  /** Cyclic predecessor index. */
  function Prev(m: nat, i: nat): (r: nat)
    requires i < m
    ensures r < m
  {
    if i == 0 then m - 1 else i - 1
  }

  /** Cyclic successor index. */
  function Next(m: nat, i: nat): (r: nat)
    requires i < m
    ensures r < m
  {
    if i == m - 1 then 0 else i + 1
  }

  /** Every address of `w` is allocated and its cell encodes its two cyclic
      neighbours in `w`. */
  ghost predicate Linked(link: map<Addr, Cell>, w: seq<Addr>)
  {
    |w| >= 2 && forall i :: 0 <= i < |w| ==> LinkedAt(link, w, i)
  }

  /** The cell of `w[i]` encodes its two cyclic neighbours. */
  ghost predicate LinkedAt(link: map<Addr, Cell>, w: seq<Addr>, i: nat)
    requires i < |w|
  {
    w[i] in link && link[w[i]] == CellOf(w[Prev(|w|, i)], w[Next(|w|, i)])
  }

  /** No address occurs twice. */
  ghost predicate Distinct(w: seq<Addr>)
  {
    forall i, j :: 0 <= i < j < |w| ==> w[i] != w[j]
  }

  /** The same ring read from position `k`. */
  function Rotate(w: seq<Addr>, k: nat): (r: seq<Addr>)
    requires k <= |w|
    ensures |r| == |w|
  {
    w[k..] + w[..k]
  }

  /** The same ring read in the opposite direction. */
  function Reverse(w: seq<Addr>): (r: seq<Addr>)
    ensures |r| == |w|
    ensures forall i :: 0 <= i < |w| ==> r[i] == w[|w| - 1 - i]
  {
    seq(|w|, i requires 0 <= i < |w| => w[|w| - 1 - i])
  }

  /** Where position `i` of `Rotate(w, k)` sits in `w`. */
  function RotatedIndex(m: nat, k: nat, i: nat): nat
  {
    if i < m - k then i + k else i + k - m
  }

  lemma RotateIndexing(w: seq<Addr>, k: nat)
    requires k <= |w|
    ensures forall i :: 0 <= i < |w| ==>
      RotatedIndex(|w|, k, i) < |w| && Rotate(w, k)[i] == w[RotatedIndex(|w|, k, i)]
  {
  }

  /** Rotation keeps linkage (one direction). */
  lemma RotateLinked(link: map<Addr, Cell>, w: seq<Addr>, k: nat)
    requires k <= |w| && Linked(link, w)
    ensures Linked(link, Rotate(w, k))
  {
    var m, r := |w|, Rotate(w, k);
    RotateIndexing(w, k);
    forall i | 0 <= i < m
      ensures LinkedAt(link, r, i)
    {
      var g := RotatedIndex(m, k, i);
      assert LinkedAt(link, w, g);
      assert Prev(m, g) == RotatedIndex(m, k, Prev(m, i));
      assert Next(m, g) == RotatedIndex(m, k, Next(m, i));
    }
  }

  /** Rotation keeps distinctness (one direction). */
  lemma RotateDistinct(w: seq<Addr>, k: nat)
    requires k <= |w| && Distinct(w)
    ensures Distinct(Rotate(w, k))
  {
    var m, r := |w|, Rotate(w, k);
    RotateIndexing(w, k);
    forall i, j | 0 <= i < j < m ensures r[i] != r[j] {
      assert RotatedIndex(m, k, i) != RotatedIndex(m, k, j);
    }
  }

  /** Rotating by `k` and then by the rest of the length gives back `w`. */
  lemma RotateBack(w: seq<Addr>, k: nat)
    requires k <= |w|
    ensures Rotate(Rotate(w, k), |w| - k) == w
  {
    var r := Rotate(w, k);
    assert r[|w| - k..] == w[..k];
    assert r[..|w| - k] == w[k..];
  }

  /** A ring and any of its rotations are linked and distinct together. */
  lemma Rotation(link: map<Addr, Cell>, w: seq<Addr>, k: nat)
    requires k <= |w|
    ensures Linked(link, w) <==> Linked(link, Rotate(w, k))
    ensures Distinct(w) <==> Distinct(Rotate(w, k))
  {
    RotateBack(w, k);
    if Linked(link, w) { RotateLinked(link, w, k); }
    if Linked(link, Rotate(w, k)) { RotateLinked(link, Rotate(w, k), |w| - k); }
    if Distinct(w) { RotateDistinct(w, k); }
    if Distinct(Rotate(w, k)) { RotateDistinct(Rotate(w, k), |w| - k); }
  }

  /** Reversal keeps linkage (one direction). */
  lemma ReverseLinked(link: map<Addr, Cell>, w: seq<Addr>)
    requires Linked(link, w)
    ensures Linked(link, Reverse(w))
  {
    var m, r := |w|, Reverse(w);
    forall i | 0 <= i < m
      ensures LinkedAt(link, r, i)
    {
      ReverseLinkedAt(link, w, i);
    }
  }

  lemma ReverseLinkedAt(link: map<Addr, Cell>, w: seq<Addr>, i: nat)
    requires Linked(link, w) && i < |w|
    ensures LinkedAt(link, Reverse(w), i)
  {
    var m, r := |w|, Reverse(w);
    var g := m - 1 - i;
    var a, b := w[Prev(m, g)], w[Next(m, g)];
    assert r[i] == w[g];
    assert r[Prev(m, i)] == b by { assert m - 1 - Prev(m, i) == Next(m, g); }
    assert r[Next(m, i)] == a by { assert m - 1 - Next(m, i) == Prev(m, g); }
    assert LinkedAt(link, w, g);
    CellOfSymmetric(a, b);
  }

  /** Reversal keeps distinctness (one direction). */
  lemma ReverseDistinct(w: seq<Addr>)
    requires Distinct(w)
    ensures Distinct(Reverse(w))
  {
    var m, r := |w|, Reverse(w);
    forall i, j | 0 <= i < j < m ensures r[i] != r[j] {
      assert r[i] == w[m - 1 - i] && r[j] == w[m - 1 - j];
    }
  }

  /** A ring and its reversal are linked and distinct together. */
  lemma Reversal(link: map<Addr, Cell>, w: seq<Addr>)
    ensures Linked(link, w) <==> Linked(link, Reverse(w))
    ensures Distinct(w) <==> Distinct(Reverse(w))
  {
    assert Reverse(Reverse(w)) == w;
    if Linked(link, w) { ReverseLinked(link, w); }
    if Linked(link, Reverse(w)) { ReverseLinked(link, Reverse(w)); }
    if Distinct(w) { ReverseDistinct(w); }
    if Distinct(Reverse(w)) { ReverseDistinct(Reverse(w)); }
  }

  /** The linkage of a ring fixes the cell of every address on it. */
  lemma LinkedUnique(l1: map<Addr, Cell>, l2: map<Addr, Cell>, w: seq<Addr>)
    requires Linked(l1, w) && Linked(l2, w)
    ensures forall i :: 0 <= i < |w| ==> w[i] in l1 && w[i] in l2 && l1[w[i]] == l2[w[i]]
  {
    forall i | 0 <= i < |w| ensures w[i] in l1 && w[i] in l2 && l1[w[i]] == l2[w[i]] {
      assert LinkedAt(l1, w, i) && LinkedAt(l2, w, i);
    }
  }

  /** Every cell outside the ring `w` is as it was. */
  ghost predicate KeepsCells(l0: map<Addr, Cell>, l1: map<Addr, Cell>, w: seq<Addr>)
  {
    forall a :: a in l0 && a !in w ==> a in l1 && l1[a] == l0[a]
  }

  /** Setting the cell of an address off the ring keeps the ring linked. */
  lemma LinkedSet(link: map<Addr, Cell>, w: seq<Addr>, x: Addr, c: Cell)
    requires Linked(link, w) && x !in w
    ensures Linked(link[x := c], w)
  {
    var l := link[x := c];
    forall i | 0 <= i < |w| ensures LinkedAt(l, w, i) {
      assert LinkedAt(link, w, i);
    }
  }

  /** Dropping the cell of an address off the ring keeps the ring linked. */
  lemma LinkedErase(link: map<Addr, Cell>, w: seq<Addr>, x: Addr)
    requires Linked(link, w) && x !in w
    ensures Linked(link - {x}, w)
  {
    var l := link - {x};
    forall i | 0 <= i < |w| ensures LinkedAt(l, w, i) {
      assert LinkedAt(link, w, i);
    }
  }

  /** Linkage depends only on the cells of the ring's own addresses. */
  lemma LinkedFrame(l1: map<Addr, Cell>, l2: map<Addr, Cell>, w: seq<Addr>)
    requires Linked(l1, w)
    requires forall i :: 0 <= i < |w| ==> w[i] in l1 && w[i] in l2 && l2[w[i]] == l1[w[i]]
    ensures Linked(l2, w)
  {
    forall i | 0 <= i < |w| ensures LinkedAt(l2, w, i) {
      assert LinkedAt(l1, w, i);
    }
  }
}
