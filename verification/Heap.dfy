/** The binary heap of tree roots that the prefix builder keeps, ordered by weight, then depth. */
module Heap {
  /** djw_heapen. */
  datatype Entry = Entry(depth: nat, freq: nat, parent: nat)

  predicate Less(a: Entry, b: Entry) {
    a.freq < b.freq || (a.freq == b.freq && a.depth < b.depth)
  }

  /** Slot 0 is the sentinel; slots 1 to `last` hold indices of entries. */
  ghost predicate Slots(h: seq<nat>, ents: seq<Entry>, last: nat) {
    last < |h| && forall i :: 0 <= i <= last ==> h[i] < |ents|
  }

  ghost predicate Ordered(h: seq<nat>, ents: seq<Entry>, i: nat)
    requires i < |h| && h[i] < |ents| && h[i / 2] < |ents|
  {
    !Less(ents[h[i]], ents[h[i / 2]])
  }

  ghost predicate IsHeap(h: seq<nat>, ents: seq<Entry>, last: nat) {
    Slots(h, ents, last) && forall i :: 2 <= i <= last ==> Ordered(h, ents, i)
  }

  ghost function Contents(h: seq<nat>, last: nat): multiset<nat>
    requires last < |h|
  {
    multiset(h[1..last + 1])
  }

  lemma {:induction false} RootIsLeast(h: seq<nat>, ents: seq<Entry>, last: nat, i: nat)
    requires IsHeap(h, ents, last) && 1 <= i <= last
    ensures !Less(ents[h[i]], ents[h[1]])
    decreases i
  {
    if i > 1 {
      RootIsLeast(h, ents, last, i / 2);
      assert Ordered(h, ents, i);
    }
  }

  lemma SwapKeepsContents(h: seq<nat>, last: nat, i: nat, j: nat)
    requires 1 <= i <= last < |h| && 1 <= j <= last && i != j
    ensures Contents(h[i := h[j]][j := h[i]], last) == Contents(h, last)
  {
    var s: seq<nat> := h[1..last + 1];
    assert h[i := h[j]][j := h[i]][1..last + 1] == s[i - 1 := h[j]][j - 1 := h[i]];
  }

  lemma ExtendContents(h: seq<nat>, last: nat, e: nat)
    requires last + 1 < |h| && h[last + 1] == e
    ensures Contents(h, last + 1) == Contents(h, last) + multiset{e}
  {
    assert h[1..last + 2] == h[1..last + 1] + [e];
  }

  /** Sifting up: `v` would be the heap if `e` were in the hole at `p`. */
  ghost predicate Rising(v: seq<nat>, ents: seq<Entry>, last: nat, p: nat) {
    && Slots(v, ents, last) && 1 <= p <= last
    && (forall i :: 2 <= i <= last && i != p ==> Ordered(v, ents, i))
    && (forall i :: 2 <= i <= last && i / 2 == p && p > 1 ==> !Less(ents[v[i]], ents[v[p / 2]]))
  }

  function Swap(h: seq<nat>, i: nat, j: nat): seq<nat>
    requires i < |h| && j < |h|
  {
    h[i := h[j]][j := h[i]]
  }

  lemma RiseStarts(h: seq<nat>, ents: seq<Entry>, last: nat, e: nat)
    requires 0 < last < |h| && e < |ents| && IsHeap(h, ents, last - 1)
    ensures Rising(h[last := e], ents, last, last)
    ensures Contents(h[last := e], last) == Contents(h, last - 1) + multiset{e}
  {
    var v := h[last := e];
    ExtendContents(v, last - 1, e);
    assert v[1..last] == h[1..last];
    forall i | 2 <= i <= last && i != last ensures Ordered(v, ents, i) {
      assert Ordered(h, ents, i);
    }
  }

  lemma RiseStep(v: seq<nat>, ents: seq<Entry>, last: nat, p: nat)
    requires Rising(v, ents, last, p) && p > 1 && Less(ents[v[p]], ents[v[p / 2]])
    ensures Rising(Swap(v, p, p / 2), ents, last, p / 2)
    ensures Contents(Swap(v, p, p / 2), last) == Contents(v, last)
  {
    var q := p / 2;
    var u := Swap(v, p, q);
    SwapKeepsContents(v, last, p, q);
    forall i | 2 <= i <= last && i != q ensures Ordered(u, ents, i) {
      if i != p { assert Ordered(v, ents, i); }
    }
    forall i | 2 <= i <= last && i / 2 == q && q > 1 ensures !Less(ents[u[i]], ents[u[q / 2]]) {
      assert Ordered(v, ents, q);
      if i != p { assert Ordered(v, ents, i); }
    }
  }

  lemma RiseEnds(v: seq<nat>, ents: seq<Entry>, last: nat, p: nat)
    requires Rising(v, ents, last, p) && (p > 1 ==> !Less(ents[v[p]], ents[v[p / 2]]))
    ensures IsHeap(v, ents, last)
  {
  }

  /** The heap while `e` rises: the hole is at `p`. */
  ghost predicate Hole(h: seq<nat>, ents: seq<Entry>, last: nat, p: nat, e: nat, all: multiset<nat>) {
    && 1 <= p <= last < |h| && e < |ents| && h[0] == 0 && h[p / 2] < |ents|
    && Rising(h[p := e], ents, last, p) && Contents(h[p := e], last) == all
  }

  lemma HoleStep(h: seq<nat>, ents: seq<Entry>, last: nat, p: nat, e: nat, all: multiset<nat>)
    requires Hole(h, ents, last, p, e, all) && Less(ents[e], ents[h[p / 2]])
    requires ents[0].freq == 0 && ents[0].depth == 0
    ensures p > 1 && Hole(h[p := h[p / 2]], ents, last, p / 2, e, all)
  {
    RiseStep(h[p := e], ents, last, p);
    assert h[p := h[p / 2]][p / 2 := e] == Swap(h[p := e], p, p / 2);
    assert h[p / 2 / 2] == h[p := e][p / 2 / 2];
  }

  /** heap_insert: `e` goes into slot `last` and rises. */
  method HeapInsert(heap: array<nat>, ents: seq<Entry>, last: nat, e: nat)
    requires 0 < last < heap.Length && e < |ents| && IsHeap(heap[..], ents, last - 1)
    requires heap[0] == 0 && ents[0].freq == 0 && ents[0].depth == 0
    modifies heap
    ensures heap[0] == 0 && IsHeap(heap[..], ents, last)
    ensures Contents(heap[..], last) == old(Contents(heap[..], last - 1)) + multiset{e}
  {
    var p := last;
    var pp := p / 2;
    ghost var all := Contents(heap[..], last - 1) + multiset{e};
    RiseStarts(heap[..], ents, last, e);
    while Less(ents[e], ents[heap[pp]])
      invariant pp == p / 2 && Hole(heap[..], ents, last, p, e, all)
      decreases p
    {
      hide Hole;
      ghost var h := heap[..];
      HoleStep(h, ents, last, p, e, all);
      heap[p] := heap[pp];
      assert heap[..] == h[p := h[pp]];
      p := pp;
      pp := p / 2;
    }
    RiseEnds(heap[..][p := e], ents, last, p);
    heap[p] := e;
  }

  /** Sifting down: the heap but for the element at `p`, which may exceed its children. */
  ghost predicate Sinking(v: seq<nat>, ents: seq<Entry>, last: nat, p: nat) {
    && Slots(v, ents, last) && 1 <= p && v[0] == 0
    && (forall i :: 2 <= i <= last && i / 2 != p ==> Ordered(v, ents, i))
    && (forall i :: 2 <= i <= last && i / 2 == p && p > 1 ==> !Less(ents[v[i]], ents[v[p / 2]]))
  }

  /** The lesser child of `p`. */
  ghost predicate LesserChild(v: seq<nat>, ents: seq<Entry>, last: nat, p: nat, pc: nat)
    requires Slots(v, ents, last)
  {
    && 1 <= p && pc / 2 == p && pc <= last
    && forall i :: 2 <= i <= last && i / 2 == p ==> !Less(ents[v[i]], ents[v[pc]])
  }

  lemma SinkStep(v: seq<nat>, ents: seq<Entry>, last: nat, p: nat, pc: nat)
    requires Sinking(v, ents, last, p) && LesserChild(v, ents, last, p, pc) && Less(ents[v[pc]], ents[v[p]])
    ensures Sinking(Swap(v, p, pc), ents, last, pc)
    ensures Contents(Swap(v, p, pc), last) == Contents(v, last)
  {
    var u := Swap(v, p, pc);
    SwapKeepsContents(v, last, p, pc);
    forall i | 2 <= i <= last && i / 2 != pc ensures Ordered(u, ents, i) {
      if i / 2 != p { assert Ordered(v, ents, i); }
    }
    forall i | 2 <= i <= last && i / 2 == pc ensures !Less(ents[u[i]], ents[u[pc / 2]]) {
      assert Ordered(v, ents, i);
    }
  }

  lemma SinkEnds(v: seq<nat>, ents: seq<Entry>, last: nat, p: nat, pc: nat)
    requires Sinking(v, ents, last, p)
    requires p * 2 > last || (LesserChild(v, ents, last, p, pc) && !Less(ents[v[pc]], ents[v[p]]))
    ensures IsHeap(v, ents, last)
  {
    forall i | 2 <= i <= last ensures Ordered(v, ents, i) {
      if i / 2 == p && p * 2 <= last {
        assert !Less(ents[v[i]], ents[v[pc]]);
      }
    }
  }

  lemma SinkStarts(h: seq<nat>, ents: seq<Entry>, last: nat)
    requires last + 1 < |h| && IsHeap(h, ents, last + 1) && h[0] == 0
    ensures Sinking(h[1 := h[last + 1]], ents, last, 1)
    ensures Contents(h[1 := h[last + 1]], last) + multiset{h[1]} == Contents(h, last + 1)
  {
    var v := h[1 := h[last + 1]];
    forall i | 2 <= i <= last && i / 2 != 1 ensures Ordered(v, ents, i) {
      assert Ordered(h, ents, i);
    }
    LastTakesRoot(h, last);
  }

  lemma LastTakesRoot(h: seq<nat>, last: nat)
    requires last + 1 < |h|
    ensures Contents(h[1 := h[last + 1]], last) + multiset{h[1]} == Contents(h, last + 1)
  {
    var v := h[1 := h[last + 1]];
    if last > 0 {
      var w := Swap(h, 1, last + 1);
      SwapKeepsContents(h, last + 1, 1, last + 1);
      ExtendContents(w, last, h[1]);
      assert w[1..last + 1] == v[1..last + 1];
    } else {
      assert h[1..2] == [h[1]] && v[1..1] == [];
    }
  }

  /** heap_extract: the least element leaves, the one behind the last slot takes its place. */
  method HeapExtract(heap: array<nat>, ents: seq<Entry>, last: nat) returns (smallest: nat)
    requires last + 1 < heap.Length && IsHeap(heap[..], ents, last + 1) && heap[0] == 0
    modifies heap
    ensures heap[0] == 0 && IsHeap(heap[..], ents, last) && smallest < |ents|
    ensures Contents(heap[..], last) + multiset{smallest} == old(Contents(heap[..], last + 1))
    ensures forall e :: e in old(Contents(heap[..], last + 1)) ==> e < |ents| && !Less(ents[e], ents[smallest])
  {
    smallest := heap[1];
    LeastOfContents(heap[..], ents, last + 1);
    SinkStarts(heap[..], ents, last);
    ghost var v := heap[..];
    heap[1] := heap[last + 1];
    assert heap[..] == v[1 := v[last + 1]];
    Reheapify(heap, ents, last);
  }

  method Reheapify(heap: array<nat>, ents: seq<Entry>, last: nat)
    requires last < heap.Length && Sinking(heap[..], ents, last, 1)
    modifies heap
    ensures heap[0] == 0 && IsHeap(heap[..], ents, last)
    ensures Contents(heap[..], last) == old(Contents(heap[..], last))
  {
    var p := 1;
    while p * 2 <= last
      invariant Sinking(heap[..], ents, last, p)
      invariant Contents(heap[..], last) == old(Contents(heap[..], last))
      decreases last + 1 - p
    {
      hide Contents;
      var pc := SmallerChild(heap, ents, last, p);
      if !Less(ents[heap[pc]], ents[heap[p]]) {
        SinkEnds(heap[..], ents, last, p, pc);
        return;
      }
      ghost var v := heap[..];
      SinkStep(v, ents, last, p, pc);
      hide Sinking;
      var t := heap[pc];
      heap[pc] := heap[p];
      heap[p] := t;
      assert heap[..] == Swap(v, p, pc);
      p := pc;
    }
    SinkEnds(heap[..], ents, last, p, 0);
  }

  method SmallerChild(heap: array<nat>, ents: seq<Entry>, last: nat, p: nat) returns (pc: nat)
    requires 1 <= p && p * 2 <= last && Slots(heap[..], ents, last)
    ensures LesserChild(heap[..], ents, last, p, pc)
  {
    pc := p * 2;
    if pc < last && Less(ents[heap[pc + 1]], ents[heap[pc]]) {
      pc := pc + 1;
    }
  }

  lemma LeastOfContents(h: seq<nat>, ents: seq<Entry>, last: nat)
    requires 1 <= last && IsHeap(h, ents, last)
    ensures forall e :: e in Contents(h, last) ==> e < |ents| && !Less(ents[e], ents[h[1]])
  {
    forall e | e in Contents(h, last) ensures e < |ents| && !Less(ents[e], ents[h[1]]) {
      var i :| 0 <= i < last && h[1..last + 1][i] == e;
      RootIsLeast(h, ents, last, i + 1);
    }
  }
}
