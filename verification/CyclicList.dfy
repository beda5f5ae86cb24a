/**
 The cyclic doubly linked list of xdelta3-list.h, for the elements of an array: element `i` has the
 links `next[i]` and `prev[i]`, the list head is number `n`.  Every operation is proved against the
 sequence of the elements.
 */
module CyclicList {
  predicate Distinct(s: seq<nat>) {
    forall i, j :: 0 <= i < j < |s| ==> s[i] != s[j]
  }

  class List {
    const n: nat
    const next: array<nat>
    const prev: array<nat>
    ghost var order: seq<nat>

    /** The head, the elements in order, and the head again: once around. */
    ghost function Around(): (c: seq<nat>)
      reads this
      ensures |c| == |order| + 2
    {
      [n] + order + [n]
    }

    ghost predicate Valid()
      reads this, next, prev
    {
      && next != prev && next.Length == prev.Length == n + 1
      && Distinct(order) && (forall k :: 0 <= k < |order| ==> order[k] < n)
      && (forall k :: 0 <= k <= |order| ==> LinkedAt(k))
    }

    ghost predicate LinkedAt(k: nat)
      reads this, next, prev
    {
      && k + 1 < |Around()| && Around()[k] < next.Length && Around()[k + 1] < prev.Length
      && next[Around()[k]] == Around()[k + 1] && prev[Around()[k + 1]] == Around()[k]
    }

    /** init. */
    constructor (n: nat)
      ensures Valid() && order == [] && this.n == n && fresh(next) && fresh(prev)
    {
      this.n := n;
      next, prev := new nat[n + 1], new nat[n + 1];
      order := [];
      new;
      next[n], prev[n] := n, n;
    }

    /** push_back. */
    method PushBack(i: nat)
      requires Valid() && i < n && i !in order
      modifies this`order, next, prev
      ensures Valid() && order == old(order) + [i]
    {
      ghost var c := Around();
      assert LinkedAt(|order|);
      var last := prev[n];
      forall k | 0 <= k <= |order| ensures LinkedAt(k) { }
      prev[n] := i;
      next[last] := i;
      next[i] := n;
      prev[i] := last;
      order := order + [i];
      forall k | 0 <= k <= |order| ensures LinkedAt(k) {
        if k < |order| - 1 {
          assert old(LinkedAt(k));
          assert Around()[k] == c[k] && Around()[k + 1] == c[k + 1];
        }
      }
    }

    /** remove. */
    method Remove(i: nat, ghost p: nat)
      requires Valid() && p < |order| && order[p] == i
      modifies this`order, next, prev
      ensures Valid() && order == old(order)[..p] + old(order)[p + 1..]
    {
      ghost var c := Around();
      assert LinkedAt(p) && LinkedAt(p + 1) && c[p + 1] == i;
      var a, b := next[i], prev[i];
      prev[a] := b;
      next[b] := a;
      order := order[..p] + order[p + 1..];
      forall k | 0 <= k <= |order| ensures LinkedAt(k) {
        if k < p {
          assert old(LinkedAt(k));
          assert Around()[k] == c[k] && Around()[k + 1] == c[k + 1];
        } else if k > p {
          assert old(LinkedAt(k + 1));
          assert Around()[k] == c[k + 1] && Around()[k + 1] == c[k + 2];
        } else {
          assert Around()[k] == c[k] && Around()[k + 1] == c[k + 2];
        }
      }
    }

    /** pop_front. */
    method PopFront() returns (i: nat)
      requires Valid() && order != []
      modifies this`order, next, prev
      ensures Valid() && i == old(order)[0] && order == old(order)[1..]
    {
      assert LinkedAt(0);
      i := next[n];
      assert i == order[0];
      Remove(i, 0);
    }
  }
}
