/**
 * Intrusive circular doubly-linked lists (dlist.h).
 *
 * A list is a head entry embedded in struct dlist; element entries are embedded in the
 * user's own structures. The head and the elements form one ring: following next from the
 * head visits the elements in order and comes back to the head, and prev goes the other way.
 * The ghost sequence Elems of a DList names the elements in order, so that the ring is
 * [head] + Elems, and every operation is specified by what it does to Elems while keeping
 * the ring well linked. Positions in the ring are passed as ghost parameters where the C
 * function only takes an entry pointer.
 */
module DLists {
  import opened Seqs

  /** struct dlist_entry: the two links embedded in a list element (or in a list head). */
  class Entry {
    var next: Entry?
    var prev: Entry?

    constructor()
      ensures next == null && prev == null
    {
      next := null;
      prev := null;
    }
  }

  /** The index after i on a ring of n entries. */
  function Succ(i: nat, n: nat): nat
    requires i < n
  {
    if i + 1 < n then i + 1 else 0
  }

  /** The index before i on a ring of n entries. */
  function Pred(i: nat, n: nat): nat
    requires i < n
  {
    if i > 0 then i - 1 else n - 1
  }

  /** Each entry of R links forward to the next one and back to the one before. */
  ghost predicate Chain(R: seq<Entry>)
    reads R
  {
    (forall i :: 0 <= i < |R| - 1 ==> R[i].next == R[i + 1]) &&
    (forall i :: 0 < i < |R| ==> R[i].prev == R[i - 1])
  }

  /** No entry occurs twice in R. */
  ghost predicate Distinct(R: seq<Entry>)
  {
    forall i, j :: 0 <= i < j < |R| ==> R[i] != R[j]
  }

  /** R, in this order, is a whole cycle of distinct entries linked both ways. */
  ghost predicate IsRing(R: seq<Entry>)
    reads R
  {
    |R| > 0 && Chain(R) && R[|R| - 1].next == R[0] && R[0].prev == R[|R| - 1] && Distinct(R)
  }

  /** A and B share no entry. */
  ghost predicate Apart(A: seq<Entry>, B: seq<Entry>)
  {
    forall x :: x in A ==> x !in B
  }

  /** Putting a sequence without repeats into another one, apart from it, makes no repeats. */
  lemma DistinctSplice(R: seq<Entry>, k: nat, S: seq<Entry>)
    requires Distinct(R) && Distinct(S) && Apart(R, S) && k < |R|
    ensures Distinct(R[..k + 1] + S + R[k + 1..])
  {
    var N := R[..k + 1] + S + R[k + 1..];
    forall i, j | 0 <= i < j < |N| ensures N[i] != N[j] {
      assert N[i] in R || N[i] in S;
      if i <= k && j <= k {
      } else if i <= k && j <= k + |S| {
        assert N[i] == R[i] && N[j] == S[j - k - 1];
      } else if i <= k {
        assert N[i] == R[i] && N[j] == R[j - |S|];
      } else if i <= k + |S| && j <= k + |S| {
        assert N[i] == S[i - k - 1] && N[j] == S[j - k - 1];
      } else if i <= k + |S| {
        assert N[i] == S[i - k - 1] && N[j] == R[j - |S|];
      } else {
        assert N[i] == R[i - |S|] && N[j] == R[j - |S|];
      }
    }
  }

  /**
   * A change to the ring t.R at position t.k: the chain t.S linked in after t.R[t.k]
   * (SpliceIn), the single entry of t.S put in place of t.R[t.k] (Substitute), or t.R[t.k]
   * unlinked (SpliceOut, where t.S plays no part).
   */
  datatype Splice = Splice(R: seq<Entry>, k: nat, S: seq<Entry>)

  /** The ring t.R with the chain t.S put in after position t.k. */
  function Inserted(t: Splice): seq<Entry>
    requires t.k < |t.R|
  {
    t.R[..t.k + 1] + t.S + t.R[t.k + 1..]
  }

  /**
   * The chain t.S, apart from the ring t.R, has been linked in after t.R[t.k], and no other
   * link of the ring or of the chain has changed.
   */
  twostate predicate LinkedIn(t: Splice)
    reads t.R, t.S
  {
    old(IsRing(t.R)) && t.k < |t.R| &&
    old(Chain(t.S)) && Distinct(t.S) && |t.S| > 0 && Apart(t.R, t.S) &&
    t.R[t.k].next == t.S[0] && t.S[0].prev == t.R[t.k] &&
    t.S[|t.S| - 1].next == t.R[Succ(t.k, |t.R|)] && t.R[Succ(t.k, |t.R|)].prev == t.S[|t.S| - 1] &&
    (forall o :: o in t.R && o != t.R[t.k] ==> o.next == old(o.next)) &&
    (forall o :: o in t.R && o != t.R[Succ(t.k, |t.R|)] ==> o.prev == old(o.prev)) &&
    (forall o :: o in t.S && o != t.S[|t.S| - 1] ==> o.next == old(o.next)) &&
    (forall o :: o in t.S && o != t.S[0] ==> o.prev == old(o.prev))
  }

  /** After linking a chain in, the next links follow Inserted(t). */
  twostate lemma InsertedNext(t: Splice)
    requires LinkedIn(t)
    ensures forall i :: 0 <= i < |Inserted(t)| - 1 ==> Inserted(t)[i].next == Inserted(t)[i + 1]
  {
    var R, k, S, N := t.R, t.k, t.S, Inserted(t);
    var m := |S|;
    forall i | 0 <= i < |N| - 1 ensures N[i].next == N[i + 1] {
      if i < k {
        assert N[i] == R[i] && N[i + 1] == R[i + 1] && R[i] != R[k];
      } else if i == k {
        assert N[i] == R[k] && N[i + 1] == S[0];
      } else if i < k + m {
        assert N[i] == S[i - k - 1] && N[i + 1] == S[i - k];
      } else if i == k + m {
        assert N[i] == S[m - 1] && N[i + 1] == R[k + 1];
      } else {
        assert N[i] == R[i - m] && N[i + 1] == R[i - m + 1] && R[i - m] != R[k];
      }
    }
  }

  /** After linking a chain in, the prev links follow Inserted(t) backwards. */
  twostate lemma InsertedPrev(t: Splice)
    requires LinkedIn(t)
    ensures forall i :: 0 < i < |Inserted(t)| ==> Inserted(t)[i].prev == Inserted(t)[i - 1]
  {
    var R, k, S, N := t.R, t.k, t.S, Inserted(t);
    var m := |S|;
    forall i | 0 < i < |N| ensures N[i].prev == N[i - 1] {
      if i <= k {
        assert N[i] == R[i] && N[i - 1] == R[i - 1] && R[i] != R[Succ(k, |R|)];
      } else if i == k + 1 {
        assert N[i] == S[0] && N[i - 1] == R[k];
      } else if i <= k + m {
        assert N[i] == S[i - k - 1] && N[i - 1] == S[i - k - 2];
      } else if i == k + m + 1 {
        assert N[i] == R[k + 1] && N[i - 1] == S[m - 1];
      } else {
        assert N[i] == R[i - m] && N[i - 1] == R[i - m - 1] && R[i - m] != R[k + 1];
      }
    }
  }

  /** Linking a chain into a ring makes a ring of all their entries. */
  twostate lemma SpliceIn(t: Splice)
    requires LinkedIn(t)
    ensures IsRing(Inserted(t))
  {
    var R, k, S, N := t.R, t.k, t.S, Inserted(t);
    DistinctSplice(R, k, S);
    InsertedNext(t);
    InsertedPrev(t);
    if k == |R| - 1 {
      assert N[|N| - 1] == S[|S| - 1] && N[0] == R[0];
    } else {
      assert N[|N| - 1] == R[|R| - 1] && R[|R| - 1] != R[k] && N[0] == R[0] && R[0] != R[k + 1];
    }
  }

  /** The ring t.R without its entry at position t.k. */
  function Removed(t: Splice): seq<Entry>
    requires t.k < |t.R|
  {
    t.R[..t.k] + t.R[t.k + 1..]
  }

  /**
   * The entry t.R[t.k] of the ring t.R has been unlinked: its neighbours now point at each
   * other, and no other link of the ring has changed.
   */
  twostate predicate UnlinkedAt(t: Splice)
    reads t.R
  {
    old(IsRing(t.R)) && 0 < t.k < |t.R| &&
    t.R[t.k - 1].next == t.R[Succ(t.k, |t.R|)] && t.R[Succ(t.k, |t.R|)].prev == t.R[t.k - 1] &&
    (forall o :: o in t.R && o != t.R[t.k - 1] ==> o.next == old(o.next)) &&
    (forall o :: o in t.R && o != t.R[Succ(t.k, |t.R|)] ==> o.prev == old(o.prev))
  }

  /** After unlinking an entry, the links follow Removed(t) both ways. */
  twostate lemma RemovedLinks(t: Splice)
    requires UnlinkedAt(t)
    ensures forall i :: 0 <= i < |Removed(t)| - 1 ==> Removed(t)[i].next == Removed(t)[i + 1]
    ensures forall i :: 0 < i < |Removed(t)| ==> Removed(t)[i].prev == Removed(t)[i - 1]
  {
    var R, k, N := t.R, t.k, Removed(t);
    forall i | 0 <= i < |N| - 1 ensures N[i].next == N[i + 1] {
      if i < k - 1 {
        assert N[i] == R[i] && N[i + 1] == R[i + 1] && R[i] != R[k - 1];
      } else if i == k - 1 {
        assert N[i] == R[k - 1] && N[i + 1] == R[k + 1];
      } else {
        assert N[i] == R[i + 1] && N[i + 1] == R[i + 2] && R[i + 1] != R[k - 1];
      }
    }
    forall i | 0 < i < |N| ensures N[i].prev == N[i - 1] {
      if i < k {
        assert N[i] == R[i] && N[i - 1] == R[i - 1] && R[i] != R[Succ(k, |R|)];
      } else if i == k {
        assert N[i] == R[k + 1] && N[i - 1] == R[k - 1];
      } else {
        assert N[i] == R[i + 1] && N[i - 1] == R[i] && R[i + 1] != R[Succ(k, |R|)];
      }
    }
  }

  /** Leaving out one entry of a sequence without repeats leaves one without repeats or that entry. */
  lemma RemovedDistinct(t: Splice)
    requires Distinct(t.R) && t.k < |t.R|
    ensures Distinct(Removed(t)) && t.R[t.k] !in Removed(t)
  {
    var R, k, N := t.R, t.k, Removed(t);
    forall i, j | 0 <= i < j < |N| ensures N[i] != N[j] {
      var i' := if i < k then i else i + 1;
      var j' := if j < k then j else j + 1;
      assert N[i] == R[i'] && N[j] == R[j'];
    }
    forall i | 0 <= i < |N| ensures N[i] != R[k] {
      var i' := if i < k then i else i + 1;
      assert N[i] == R[i'];
    }
  }

  /** Unlinking an entry other than the first from a ring leaves a ring of the others. */
  twostate lemma SpliceOut(t: Splice)
    requires UnlinkedAt(t)
    ensures IsRing(Removed(t)) && t.R[t.k] !in Removed(t)
  {
    var R, k, N := t.R, t.k, Removed(t);
    RemovedDistinct(t);
    RemovedLinks(t);
    if k == |R| - 1 {
      assert N[|N| - 1] == R[k - 1] && N[0] == R[0];
    } else {
      assert N[|N| - 1] == R[|R| - 1] && R[|R| - 1] != R[k - 1] && N[0] == R[0] && R[0] != R[k + 1];
    }
  }

  /** Putting a chain in after position k of a ring that starts with h puts it in at k - 1 of the rest. */
  lemma HeadInserted(h: Entry, E: seq<Entry>, t: Splice)
    requires t.R == [h] + E && t.k < |t.R|
    ensures [h] + (E[..t.k] + t.S + E[t.k..]) == Inserted(t)
  {
    assert t.R[..t.k + 1] == [h] + E[..t.k] && t.R[t.k + 1..] == E[t.k..];
  }

  /** Removing position k of a ring that starts with h removes position k - 1 of the rest. */
  lemma HeadRemoved(h: Entry, E: seq<Entry>, t: Splice)
    requires t.R == [h] + E && 0 < t.k < |t.R|
    ensures [h] + (E[..t.k - 1] + E[t.k..]) == Removed(t)
  {
    assert t.R[..t.k] == [h] + E[..t.k - 1] && t.R[t.k + 1..] == E[t.k..];
  }

  /** Putting a new entry, linked to both neighbours, in place of one in a ring leaves a ring. */
  twostate lemma Substitute(t: Splice)
    requires |t.S| == 1
    requires old(IsRing(t.R)) && 2 <= |t.R| && t.k < |t.R| && t.S[0] !in t.R
    requires t.R[Pred(t.k, |t.R|)].next == t.S[0] && t.S[0].prev == t.R[Pred(t.k, |t.R|)]
    requires t.S[0].next == t.R[Succ(t.k, |t.R|)] && t.R[Succ(t.k, |t.R|)].prev == t.S[0]
    requires forall o :: o in t.R && o != t.R[Pred(t.k, |t.R|)] ==> o.next == old(o.next)
    requires forall o :: o in t.R && o != t.R[Succ(t.k, |t.R|)] ==> o.prev == old(o.prev)
    ensures IsRing(t.R[t.k := t.S[0]])
  {
    var R, k, n := t.R, t.k, t.S[0];
    var N := R[k := n];
    forall i, j | 0 <= i < j < |N| ensures N[i] != N[j] {
      assert N[i] == R[i] || N[i] == n;
    }
    forall i | 0 <= i < |N| - 1 ensures N[i].next == N[i + 1] {
      if i == k {
      } else if i + 1 == k {
      } else {
        assert N[i] == R[i] && N[i + 1] == R[i + 1] && R[i] != R[Pred(k, |R|)];
      }
    }
    forall i | 0 < i < |N| ensures N[i].prev == N[i - 1] {
      if i == k {
      } else if i - 1 == k {
      } else {
        assert N[i] == R[i] && N[i - 1] == R[i - 1] && R[i] != R[Succ(k, |R|)];
      }
    }
    if k == 0 {
      assert N[|N| - 1] == R[|R| - 1];
    } else if k == |R| - 1 {
      assert N[0] == R[0];
    } else {
      assert N[|N| - 1] == R[|R| - 1] && R[|R| - 1] != R[Pred(k, |R|)] && N[0] == R[0] && R[0] != R[Succ(k, |R|)];
    }
  }

  /** On a ring, each entry's links lead to its neighbours in the sequence. */
  lemma Neighbours(R: seq<Entry>, k: nat)
    requires IsRing(R) && k < |R|
    ensures R[k].next == R[Succ(k, |R|)] && R[k].prev == R[Pred(k, |R|)]
  {
  }

  /** Two valid states of the same ring agree on every link. */
  twostate lemma SameRingSameLinks(R: seq<Entry>)
    requires old(IsRing(R)) && IsRing(R)
    ensures forall o :: o in R ==> o.next == old(o.next) && o.prev == old(o.prev)
  {
    forall o | o in R ensures o.next == old(o.next) && o.prev == old(o.prev) {
      var i :| 0 <= i < |R| && R[i] == o;
      if i < |R| - 1 {
        assert o.next == R[i + 1] == old(o.next);
      } else {
        assert o.next == R[0] == old(o.next);
      }
      if i > 0 {
        assert o.prev == R[i - 1] == old(o.prev);
      } else {
        assert o.prev == R[|R| - 1] == old(o.prev);
      }
    }
  }

  /** Putting back the element just dropped from position i restores the sequence. */
  lemma DropInsert<T>(s: seq<T>, i: nat)
    requires i < |s|
    ensures (s[..i] + s[i + 1..])[..i] + [s[i]] + (s[..i] + s[i + 1..])[i..] == s
  {
    var d := s[..i] + s[i + 1..];
    assert d[..i] == s[..i] && d[i..] == s[i + 1..];
  }

  /** A slice of a chain is a chain. */
  lemma ChainSlice(R: seq<Entry>, i: nat, j: nat)
    requires Chain(R) && i <= j <= |R|
    ensures Chain(R[i..j])
  {
  }

  /** _dlist_prepend_: link the chain s..e in after a, before a's old successor. */
  method Prepend(a: Entry, s: Entry, e: Entry)
    requires a.next != null && s != a.next && e != a.next && e != a
    modifies a`next, a.next`prev, e`next
    ensures a.next == s && e.next == old(a.next) && old(a.next).prev == e
  {
    var f := a.next;
    a.next := s;
    f.prev := e;
    e.next := f;
  }

  /** _dlist_append_: link the chain s..e in before a, after a's old predecessor. */
  method Append(a: Entry, s: Entry, e: Entry)
    requires a.prev != null && s != a.prev && e != a.prev && s != a
    modifies a`prev, a.prev`next, s`prev
    ensures a.prev == e && old(a.prev).next == s && s.prev == old(a.prev)
  {
    var l := a.prev;
    a.prev := e;
    l.next := s;
    s.prev := l;
  }

  /** _dlist_insert_after: link x in after cur, leaving the old successor's prev to be finished. */
  method LinkAfter(cur: Entry, x: Entry) returns (r: Entry)
    requires cur != x
    modifies cur`next, x`next, x`prev
    ensures r == x && cur.next == x && x.next == old(cur.next) && x.prev == cur
  {
    var n := cur.next;
    cur.next := x;
    x.next := n;
    x.prev := cur;
    return x;
  }

  /** _dlist_insert_before: link x in before cur, leaving the old predecessor's next to be finished. */
  method LinkBefore(cur: Entry, x: Entry) returns (r: Entry)
    requires cur != x
    modifies cur`prev, x`next, x`prev
    ensures r == x && cur.prev == x && x.prev == old(cur.prev) && x.next == cur
  {
    var p := cur.prev;
    cur.prev := x;
    x.prev := p;
    x.next := cur;
    return x;
  }

  /** _dlist_insert_after_finish: point the successor of cur back at cur. */
  method FinishAfter(cur: Entry)
    requires cur.next != null
    modifies cur.next`prev
    ensures cur.next == old(cur.next) && cur.next.prev == cur
  {
    cur.next.prev := cur;
  }

  /** _dlist_insert_before_finish: point the predecessor of cur forward at cur. */
  method FinishBefore(cur: Entry)
    requires cur.prev != null
    modifies cur.prev`next
    ensures cur.prev == old(cur.prev) && cur.prev.next == cur
  {
    cur.prev.next := cur;
  }

  /**
   * struct dlist: a head entry e whose next is the first element and whose prev is the last.
   * Elems lists the elements in order; Ring() is the whole cycle, starting at the head.
   */
  class DList {
    const e: Entry
    ghost var Elems: seq<Entry>

    /** The whole cycle, starting at the head. */
    ghost function Ring(): seq<Entry>
      reads this
    {
      [e] + Elems
    }

    /** The entry at position i of the ring. */
    ghost function At(i: nat): Entry
      requires i < |Ring()|
      reads this
    {
      Ring()[i]
    }

    /** The head is linked into a ring with the elements, in order, and is not one of them. */
    ghost predicate Valid()
      reads this, e, Ring()
    {
      e.next != null && e.prev != null && e !in Elems && IsRing(Ring())
    }

    /**
     * Linking the chain t.S in after position t.k of the old ring t.R, and changing no other
     * link of the ring or of the chain, leaves a valid list whose elements are the old ones
     * with t.S put in at t.k.
     */
    twostate lemma Linked(t: Splice)
      requires old(Valid()) && t.R == old(Ring()) && t.k < |t.R|
      requires old(Chain(t.S)) && Distinct(t.S) && |t.S| > 0 && Apart(t.R, t.S)
      requires Elems == old(Elems)[..t.k] + t.S + old(Elems)[t.k..]
      requires t.R[t.k].next == t.S[0] && t.S[0].prev == t.R[t.k]
      requires t.S[|t.S| - 1].next == t.R[Succ(t.k, |t.R|)] && t.R[Succ(t.k, |t.R|)].prev == t.S[|t.S| - 1]
      requires forall o :: o in t.R && o != t.R[t.k] ==> o.next == old(o.next)
      requires forall o :: o in t.R && o != t.R[Succ(t.k, |t.R|)] ==> o.prev == old(o.prev)
      requires forall o :: o in t.S && o != t.S[|t.S| - 1] ==> o.next == old(o.next)
      requires forall o :: o in t.S && o != t.S[0] ==> o.prev == old(o.prev)
      ensures Valid()
    {
      SpliceIn(t);
      HeadInserted(e, old(Elems), t);
    }

    /** Unlinking the entry at position k of the old ring leaves a valid list without it. */
    twostate lemma Unlinked(k: nat)
      requires old(Valid()) && 0 < k < |old(Ring())|
      requires Elems == old(Elems)[..k - 1] + old(Elems)[k..]
      requires old(At(k - 1)).next == old(At(Succ(k, |Ring()|)))
      requires old(At(Succ(k, |Ring()|))).prev == old(At(k - 1))
      requires forall o :: o in old(Ring()) && o != old(At(k - 1)) ==> o.next == old(o.next)
      requires forall o :: o in old(Ring()) && o != old(At(Succ(k, |Ring()|))) ==> o.prev == old(o.prev)
      ensures Valid() && old(At(k)) !in Ring()
    {
      ghost var t := Splice(old(Ring()), k, []);
      SpliceOut(t);
      HeadRemoved(e, old(Elems), t);
    }

    /** Putting t.S[0], linked to both neighbours, in place of the element at position t.k leaves a valid list. */
    twostate lemma Substituted(t: Splice)
      requires old(Valid()) && t.R == old(Ring()) && 0 < t.k < |t.R| && |t.S| == 1 && t.S[0] !in t.R
      requires Elems == old(Elems)[t.k - 1 := t.S[0]]
      requires t.R[t.k - 1].next == t.S[0] && t.S[0].prev == t.R[t.k - 1]
      requires t.S[0].next == t.R[Succ(t.k, |t.R|)] && t.R[Succ(t.k, |t.R|)].prev == t.S[0]
      requires forall o :: o in t.R && o != t.R[t.k - 1] ==> o.next == old(o.next)
      requires forall o :: o in t.R && o != t.R[Succ(t.k, |t.R|)] ==> o.prev == old(o.prev)
      ensures Valid()
    {
      Substitute(t);
      assert Ring() == t.R[t.k := t.S[0]];
    }

    /** Taking over the elements of src, with this head linked in place of src's, leaves a valid list. */
    twostate lemma Took(src: DList)
      requires old(src.Valid()) && old(src.Elems) != [] && e !in old(src.Ring())
      requires Elems == old(src.Elems)
      requires e.next == old(src.e.next) && e.prev == old(src.e.prev)
      requires old(src.e.next).prev == e && old(src.e.prev).next == e
      requires forall o :: o in old(src.Ring()) && o != old(src.e.prev) ==> o.next == old(o.next)
      requires forall o :: o in old(src.Ring()) && o != old(src.e.next) ==> o.prev == old(o.prev)
      ensures Valid()
    {
      ghost var R := old(src.Ring());
      Substitute(Splice(R, 0, [e]));
      assert Ring() == R[0 := e];
    }

    /** A list stays valid while neither its head, its elements nor their links change. */
    twostate lemma Kept()
      requires old(Valid()) && Elems == old(Elems)
      requires forall o :: o in old(Ring()) ==> o.next == old(o.next) && o.prev == old(o.prev)
      ensures Valid()
    {
      assert Ring() == old(Ring());
    }

    /** DLIST_DECLARE: a head linked to itself. */
    constructor()
      ensures Valid() && Elems == []
      ensures fresh(e) && e.next == e && e.prev == e
    {
      e := new Entry();
      Elems := [];
      new;
      e.next := e;
      e.prev := e;
    }

    /** dlist_end: the head entry, where iteration stops. */
    function End(): (r: Entry)
      reads this, e, Ring()
      ensures Valid() ==> r in Ring() && r !in Elems
    {
      e
    }

    /** dlist_init: link the head to itself; any previous contents are forgotten. */
    method Init()
      modifies this`Elems, e`next, e`prev
      ensures Valid() && Elems == []
    {
      e.next := End();
      e.prev := End();
      Elems := [];
    }

    /** dlist_is_empty: the first link leads back to the head. */
    function IsEmpty(): (r: bool)
      requires Valid()
      reads this, e, Ring()
      ensures r <==> Elems == []
    {
      Neighbours(Ring(), 0);
      End() == e.next
    }

    /** _dlist_add_front_finish: point the given first entry back at the head. */
    method FinishFront(first: Entry)
      modifies first`prev
      ensures first.prev == e
    {
      first.prev := e;
    }

    /** _dlist_add_back_finish: point the given last entry forward at the head. */
    method FinishBack(last: Entry)
      modifies last`next
      ensures last.next == e
    {
      last.next := e;
    }

    /** dlist_add_front_finish: point the current first entry back at the head. */
    method FinishFirst()
      requires e.next != null
      modifies e.next`prev
      ensures e.next == old(e.next) && e.next.prev == e
    {
      FinishFront(e.next);
    }

    /** dlist_add_back_finish: point the current last entry forward at the head. */
    method FinishLast()
      requires e.prev != null
      modifies e.prev`next
      ensures e.prev == old(e.prev) && e.prev.next == e
    {
      FinishBack(e.prev);
    }

    /** dlist_add_front: _dlist_add_front (prepend after the head) completed by _dlist_add_front_finish. */
    method AddFront(x: Entry)
      requires Valid() && x !in Ring()
      modifies this`Elems, e`next, e.next`prev, x`next, x`prev
      ensures Valid() && Elems == [x] + old(Elems)
      ensures e.next == x && x.prev == e && x.next == old(e.next) && old(e.next).prev == x
    {
      ghost var R := Ring();
      Neighbours(Ring(), 0);
      Prepend(e, x, x);
      FinishFront(x);
      Elems := [x] + Elems;
      Linked(Splice(R, 0, [x]));
    }

    /** dlist_add_back: _dlist_add_back (append before the head) completed by _dlist_add_back_finish. */
    method AddBack(x: Entry)
      requires Valid() && x !in Ring()
      modifies this`Elems, e`prev, e.prev`next, x`next, x`prev
      ensures Valid() && Elems == old(Elems) + [x]
      ensures e.prev == x && x.next == e && x.prev == old(e.prev) && old(e.prev).next == x
    {
      ghost var R := Ring();
      Neighbours(Ring(), 0);
      Append(e, x, x);
      FinishBack(x);
      Elems := Elems + [x];
      Linked(Splice(R, |R| - 1, [x]));
    }

    /** dlist_insert_after: link x in right after cur, the entry at position k of the ring. */
    method InsertAfter(cur: Entry, x: Entry, ghost k: nat)
      requires Valid() && k < |Ring()| && cur == Ring()[k] && x !in Ring()
      modifies this`Elems, cur`next, At(Succ(k, |Ring()|))`prev, x`next, x`prev
      ensures Valid() && Elems == old(Elems)[..k] + [x] + old(Elems)[k..]
      ensures cur.next == x && x.prev == cur
    {
      ghost var R := Ring();
      Neighbours(Ring(), k);
      var r := LinkAfter(cur, x);
      FinishAfter(r);
      Elems := Elems[..k] + [x] + Elems[k..];
      Linked(Splice(R, k, [x]));
    }

    /** dlist_insert_before: link x in right before cur, the entry at position k of the ring. */
    method InsertBefore(cur: Entry, x: Entry, ghost k: nat)
      requires Valid() && k < |Ring()| && cur == Ring()[k] && x !in Ring()
      modifies this`Elems, cur`prev, At(Pred(k, |Ring()|))`next, x`next, x`prev
      ensures Valid()
      ensures Elems == if k == 0 then old(Elems) + [x] else old(Elems)[..k - 1] + [x] + old(Elems)[k - 1..]
      ensures cur.prev == x && x.next == cur
    {
      ghost var R := Ring();
      ghost var p := Pred(k, |Ring()|);
      assert Succ(p, |Ring()|) == k;
      Neighbours(Ring(), k);
      var r := LinkBefore(cur, x);
      FinishBefore(r);
      Elems := Elems[..p] + [x] + Elems[p..];
      Linked(Splice(R, p, [x]));
    }

    /** dlist_remove: unlink x, the entry at position k, and return it; x keeps its own links. */
    method Remove(x: Entry, ghost k: nat) returns (r: Entry)
      requires Valid() && 0 < k < |Ring()| && x == Ring()[k]
      modifies this`Elems, At(Succ(k, |Ring()|))`prev, At(k - 1)`next
      ensures Valid() && Elems == old(Elems)[..k - 1] + old(Elems)[k..]
      ensures r == x && x.next == old(x.next) && x.prev == old(x.prev) && x !in Ring()
    {
      ghost var R := Ring();
      Neighbours(R, k);
      var n := x.next;
      var p := x.prev;
      n.prev := p;
      p.next := n;
      Elems := Elems[..k - 1] + Elems[k..];
      Unlinked(k);
      return x;
    }

    /**
     * dlist_restore: link x back in between its own prev and next, which must be adjacent
     * on the ring, at positions k and the one after it.
     */
    method Restore(x: Entry, ghost k: nat)
      requires Valid() && k < |Ring()| && x !in Ring()
      requires x.prev == Ring()[k] && x.next == Ring()[Succ(k, |Ring()|)]
      modifies this`Elems, At(Succ(k, |Ring()|))`prev, At(k)`next
      ensures Valid() && Elems == old(Elems)[..k] + [x] + old(Elems)[k..]
    {
      ghost var R := Ring();
      var n := x.next;
      var p := x.prev;
      n.prev := x;
      p.next := x;
      Elems := Elems[..k] + [x] + Elems[k..];
      Linked(Splice(R, k, [x]));
    }

    /** Removing an entry and restoring it at once gives back the list, link for link. */
    method RemoveThenRestore(x: Entry, ghost k: nat)
      requires Valid() && 0 < k < |Ring()| && x == Ring()[k]
      modifies this`Elems, At(Succ(k, |Ring()|))`prev, At(k - 1)`next
      ensures Valid() && Elems == old(Elems)
      ensures forall o :: o in Ring() ==> o.next == old(o.next) && o.prev == old(o.prev)
    {
      ghost var R := Ring();
      Neighbours(R, k);
      var r := Remove(x, k);
      ghost var R1 := Ring();
      assert R1[k - 1] == R[k - 1] && R1[Succ(k - 1, |R1|)] == R[Succ(k, |R|)];
      Restore(x, k - 1);
      DropInsert(old(Elems), k - 1);
      SameRingSameLinks(R);
    }

    /** dlist_replace: put n where o, the entry at position k, was; return o, which keeps its own links. */
    method Replace(o: Entry, n: Entry, ghost k: nat) returns (r: Entry)
      requires Valid() && 0 < k < |Ring()| && o == Ring()[k] && n !in Ring()
      modifies this`Elems, n`next, n`prev, At(k - 1)`next, At(Succ(k, |Ring()|))`prev
      ensures Valid() && Elems == old(Elems)[k - 1 := n]
      ensures r == o && o.next == old(o.next) && o.prev == old(o.prev)
    {
      ghost var R := Ring();
      Neighbours(Ring(), k);
      n.prev := o.prev;
      n.prev.next := n;
      n.next := o.next;
      n.next.prev := n;
      Elems := Elems[k - 1 := n];
      Substituted(Splice(R, k, [n]));
      return o;
    }

    /** The elements form a chain of their own, the head's links lead to the first and the last. */
    lemma ElemsChain()
      requires Valid()
      ensures Chain(Elems) && Distinct(Elems)
      ensures Elems != [] ==> e.next == Elems[0] && e.prev == Elems[|Elems| - 1]
    {
      ChainSlice(Ring(), 1, |Ring()|);
      assert Ring()[1..] == Elems;
    }

    /** A list apart from this one has its first and last entries, and all others, outside this ring. */
    lemma Outside(src: DList)
      requires Valid() && src.Valid() && src.Elems != [] && Apart(Ring(), src.Ring())
      ensures src.e.next !in Ring() && src.e.prev !in Ring() && Apart(Ring(), src.Elems)
      ensures src != this && src.e !in Ring()
    {
      src.ElemsChain();
      assert src.e.next in src.Ring() && src.e.prev in src.Ring();
    }

    /**
     * _dlist_move: the head of this list, which need not be valid, takes over the non-empty
     * ring of src; src's head still points at the moved entries and is no longer valid.
     */
    method MoveNonEmpty(src: DList)
      requires src.Valid() && src.Elems != [] && e !in src.Ring()
      modifies this`Elems, e`next, e`prev, src.e.next`prev, src.e.prev`next
      ensures Valid() && Elems == old(src.Elems)
      ensures src.e.next == old(src.e.next) && src.e.prev == old(src.e.prev)
    {
      Neighbours(src.Ring(), 0);
      e.next := src.e.next;
      e.prev := src.e.prev;
      e.next.prev := End();
      e.prev.next := End();
      Elems := src.Elems;
      Took(src);
    }

    /** dlist_move: move the elements of src to this list, which need not be valid before, and clear src. */
    method Move(src: DList)
      requires src.Valid() && e !in src.Ring()
      modifies this`Elems, e`next, e`prev, src`Elems, src.e`next, src.e`prev, src.e.next`prev, src.e.prev`next
      ensures Valid() && Elems == old(src.Elems)
      ensures src.Valid() && src.Elems == []
    {
      var d := this;
      if !src.IsEmpty() {
        MoveNonEmpty(src);
        d := src;
      }
      d.Init();
    }

    /** _dlist_add_list_front: link the non-empty ring of src in right after the head; src is left invalid. */
    method AddListFrontNonEmpty(src: DList)
      requires Valid() && src.Valid() && src.Elems != [] && Apart(Ring(), src.Ring())
      modifies this`Elems, e`next, e.next`prev, src.e.prev`next, src.e.next`prev
      ensures Valid() && Elems == old(src.Elems) + old(Elems)
      ensures src.e.next == old(src.e.next) && src.e.prev == old(src.e.prev)
    {
      ghost var R := Ring();
      ghost var S := src.Elems;
      src.ElemsChain();
      Outside(src);
      Neighbours(Ring(), 0);
      var first := src.e.next;
      Prepend(e, first, src.e.prev);
      FinishFront(first);
      Elems := S + Elems;
      Linked(Splice(R, 0, S));
    }

    /** dlist_add_list_front: put the elements of src in front of this list's, and clear src. */
    method AddListFront(src: DList)
      requires Valid() && src.Valid() && Apart(Ring(), src.Ring())
      modifies this`Elems, e`next, e.next`prev, src`Elems, src.e`next, src.e`prev, src.e.prev`next, src.e.next`prev
      ensures Valid() && Elems == old(src.Elems) + old(Elems)
      ensures src.Valid() && src.Elems == [] && Apart(Ring(), src.Ring())
    {
      if !src.IsEmpty() {
        AddListFrontNonEmpty(src);
        label linked:
        assert src.e !in Ring() && src != this;
        src.Init();
        Kept@linked();
      }
    }

    /** _dlist_add_list_back: link the non-empty ring of src in right before the head; src is left invalid. */
    method AddListBackNonEmpty(src: DList)
      requires Valid() && src.Valid() && src.Elems != [] && Apart(Ring(), src.Ring())
      modifies this`Elems, e`prev, e.prev`next, src.e.prev`next, src.e.next`prev
      ensures Valid() && Elems == old(Elems) + old(src.Elems)
      ensures src.e.next == old(src.e.next) && src.e.prev == old(src.e.prev)
    {
      ghost var R := Ring();
      ghost var S := src.Elems;
      ghost var k := |Elems|;
      src.ElemsChain();
      Outside(src);
      Neighbours(Ring(), 0);
      var last := src.e.prev;
      Append(e, src.e.next, last);
      FinishBack(last);
      Elems := Elems + S;
      Linked(Splice(R, k, S));
    }

    /** dlist_add_list_back: put the elements of src after this list's, and clear src. */
    method AddListBack(src: DList)
      requires Valid() && src.Valid() && Apart(Ring(), src.Ring())
      modifies this`Elems, e`prev, e.prev`next, src`Elems, src.e`next, src.e`prev, src.e.prev`next, src.e.next`prev
      ensures Valid() && Elems == old(Elems) + old(src.Elems)
      ensures src.Valid() && src.Elems == [] && Apart(Ring(), src.Ring())
    {
      if !src.IsEmpty() {
        AddListBackNonEmpty(src);
        label linked:
        assert src.e !in Ring() && src != this;
        src.Init();
        Kept@linked();
      }
    }

    /** _dlist_insert_list_after: link the non-empty ring of src in right after cur, the entry at position k. */
    method InsertListAfterNonEmpty(cur: Entry, src: DList, ghost k: nat)
      requires Valid() && k < |Ring()| && cur == Ring()[k]
      requires src.Valid() && src.Elems != [] && Apart(Ring(), src.Ring())
      modifies this`Elems, cur`next, At(Succ(k, |Ring()|))`prev, src.e.prev`next, src.e.next`prev
      ensures Valid() && Elems == old(Elems)[..k] + old(src.Elems) + old(Elems)[k..]
      ensures src.e.next == old(src.e.next) && src.e.prev == old(src.e.prev)
    {
      ghost var R := Ring();
      ghost var S := src.Elems;
      src.ElemsChain();
      Outside(src);
      Neighbours(Ring(), k);
      var first := src.e.next;
      Prepend(cur, first, src.e.prev);
      first.prev := cur;
      Elems := Elems[..k] + S + Elems[k..];
      Linked(Splice(R, k, S));
    }

    /** dlist_insert_list_after: put the elements of src right after cur, the entry at position k, and clear src. */
    method InsertListAfter(cur: Entry, src: DList, ghost k: nat)
      requires Valid() && k < |Ring()| && cur == Ring()[k]
      requires src.Valid() && Apart(Ring(), src.Ring())
      modifies this`Elems, cur`next, At(Succ(k, |Ring()|))`prev
      modifies src`Elems, src.e`next, src.e`prev, src.e.prev`next, src.e.next`prev
      ensures Valid() && Elems == old(Elems)[..k] + old(src.Elems) + old(Elems)[k..]
      ensures src.Valid() && src.Elems == [] && Apart(Ring(), src.Ring())
    {
      if !src.IsEmpty() {
        InsertListAfterNonEmpty(cur, src, k);
        label linked:
        assert src.e !in Ring() && src != this;
        src.Init();
        Kept@linked();
      }
    }

    /** _dlist_insert_list_before: link the non-empty ring of src in right before cur, the entry at position k. */
    method InsertListBeforeNonEmpty(cur: Entry, src: DList, ghost k: nat)
      requires Valid() && k < |Ring()| && cur == Ring()[k]
      requires src.Valid() && src.Elems != [] && Apart(Ring(), src.Ring())
      modifies this`Elems, cur`prev, At(Pred(k, |Ring()|))`next, src.e.prev`next, src.e.next`prev
      ensures Valid()
      ensures Elems == if k == 0 then old(Elems) + old(src.Elems)
                       else old(Elems)[..k - 1] + old(src.Elems) + old(Elems)[k - 1..]
      ensures src.e.next == old(src.e.next) && src.e.prev == old(src.e.prev)
    {
      ghost var R := Ring();
      ghost var S := src.Elems;
      ghost var p := Pred(k, |Ring()|);
      assert Succ(p, |Ring()|) == k;
      src.ElemsChain();
      Outside(src);
      Neighbours(Ring(), k);
      var last := src.e.prev;
      Append(cur, src.e.next, last);
      last.next := cur;
      Elems := Elems[..p] + S + Elems[p..];
      Linked(Splice(R, p, S));
    }

    /** dlist_insert_list_before: put the elements of src right before cur, the entry at position k, and clear src. */
    method InsertListBefore(cur: Entry, src: DList, ghost k: nat)
      requires Valid() && k < |Ring()| && cur == Ring()[k]
      requires src.Valid() && Apart(Ring(), src.Ring())
      modifies this`Elems, cur`prev, At(Pred(k, |Ring()|))`next
      modifies src`Elems, src.e`next, src.e`prev, src.e.prev`next, src.e.next`prev
      ensures Valid()
      ensures Elems == if k == 0 then old(Elems) + old(src.Elems)
                       else old(Elems)[..k - 1] + old(src.Elems) + old(Elems)[k - 1..]
      ensures src.Valid() && src.Elems == [] && Apart(Ring(), src.Ring())
    {
      if !src.IsEmpty() {
        InsertListBeforeNonEmpty(cur, src, k);
        label linked:
        assert src.e !in Ring() && src != this;
        src.Init();
        Kept@linked();
      }
    }

    /**
     * dlist_iterate: follow next links from the first entry until the head comes round again;
     * the entries visited are the elements in order, and the iterator ends as null.
     */
    method Iterate() returns (visited: seq<Entry>, it: Entry?)
      requires Valid()
      ensures visited == Elems && it == null
    {
      visited := [];
      var x: Entry := e.next;
      ghost var i := 1;
      Neighbours(Ring(), 0);
      while End() != x
        invariant 1 <= i <= |Ring()|
        invariant x == Ring()[if i < |Ring()| then i else 0]
        invariant visited == Elems[..i - 1]
        decreases |Ring()| - i
      {
        Neighbours(Ring(), i);
        visited := visited + [x];
        x := x.next;
        i := i + 1;
      }
      assert i == |Ring()|;
      it := null;
    }

    /**
     * dlist_iterate_backward: follow prev links from the last entry until the head comes round
     * again; the entries visited are the elements in reverse order.
     */
    method IterateBackward() returns (visited: seq<Entry>, it: Entry?)
      requires Valid()
      ensures visited == Reverse(Elems) && it == null
    {
      visited := [];
      var x: Entry := e.prev;
      ghost var i := |Ring()| - 1;
      Neighbours(Ring(), 0);
      while End() != x
        invariant 0 <= i < |Ring()|
        invariant x == Ring()[i]
        invariant visited == Reverse(Elems[i..])
        decreases i
      {
        Neighbours(Ring(), i);
        assert Elems[i - 1..][1..] == Elems[i..];
        visited := visited + [x];
        x := x.prev;
        i := i - 1;
      }
      assert Elems[i..] == Elems;
      it := null;
    }
  }
}
